/**
  `SupabaseAuth`, the bot's session store: a wrapper around a Supabase client
  that keeps the WhatsApp session in the row of the table `whatsapp_sessions`
  whose `client_id` is `whatsapp-bot`.

  The remote table is abstract: `SessionTable` holds its rows, keyed by
  `client_id`, and the log of requests sent to it. How each request ends is
  an input, a `Fault`: it succeeds, the backend answers with an error
  object, or the call throws. A request that does not succeed leaves the
  rows as they were.
 */
module SupabaseSession {
  import opened JsValues

  /** How one backend call ends. */
  datatype Fault = NoFault | ErrorResult(code: string, message: string) | Thrown(message: string)

  /** The requests the wrapper sends. */
  datatype Request =
    | CreateTableCall                    // rpc('create_whatsapp_sessions_table')
    | UpsertCall(clientId: string, sessionData: JsonValue)
    | SelectCall(clientId: string)       // select('session_data').eq(...).single()
    | DeleteCall(clientId: string)

  /** The answer to `select('session_data').eq('client_id', id).single()`. */
  datatype SelectReply = Row(sessionData: JsonValue) | ErrorReply(code: string) | Throws

  /** PostgREST's code for "`single()` found no row". */
  const NotFound := "PGRST116"

  /** The rows after an upsert of `data` under `id`. */
  function Saved(rows: map<string, JsonValue>, id: string, data: JsonValue, f: Fault): (r: map<string, JsonValue>)
  {
    if f.NoFault? then rows[id := data] else rows
  }

  /** The rows after deleting the row of `id`. */
  function Deleted(rows: map<string, JsonValue>, id: string, f: Fault): (r: map<string, JsonValue>)
  {
    if f.NoFault? then rows - {id} else rows
  }

  /** The backend's answer to a single-row select of `id`. */
  function Selected(rows: map<string, JsonValue>, id: string, f: Fault): (r: SelectReply)
    ensures r.Row? <==> f.NoFault? && id in rows
  {
    match f
    case NoFault => if id in rows then Row(rows[id]) else ErrorReply(NotFound)
    case ErrorResult(code, _) => ErrorReply(code)
    case Thrown(_) => Throws
  }

  /** What `loadSession` returns for an answer: the stored `session_data`,
      or `null` (`Null`) for every error, not-found included, and for an
      exception. */
  function Loaded(reply: SelectReply): (v: JsonValue)
    ensures !reply.Row? ==> v == Null
  {
    match reply
    case Row(d) => d
    case ErrorReply(code) => Null   // a code other than NotFound is also logged
    case Throws => Null
  }

  /** The remote table `whatsapp_sessions`. */
  class SessionTable {
    var rows: map<string, JsonValue>
    var requests: seq<Request>

    constructor()
      ensures rows == map[] && requests == []
    {
      rows := map[];
      requests := [];
    }

    method Rpc(f: Fault) returns (r: Fault)
      modifies this
      ensures r == f && rows == old(rows) && requests == old(requests) + [CreateTableCall]
    {
      requests := requests + [CreateTableCall];
      r := f;
    }

    method Upsert(id: string, data: JsonValue, f: Fault) returns (r: Fault)
      modifies this
      ensures r == f
      ensures rows == Saved(old(rows), id, data, f) && requests == old(requests) + [UpsertCall(id, data)]
    {
      requests := requests + [UpsertCall(id, data)];
      if f.NoFault? {
        rows := rows[id := data];
      }
      r := f;
    }

    method Select(id: string, f: Fault) returns (r: SelectReply)
      modifies this
      ensures r == Selected(old(rows), id, f)
      ensures rows == old(rows) && requests == old(requests) + [SelectCall(id)]
    {
      requests := requests + [SelectCall(id)];
      r := Selected(rows, id, f);
    }

    method Delete(id: string, f: Fault) returns (r: Fault)
      modifies this
      ensures r == f
      ensures rows == Deleted(old(rows), id, f) && requests == old(requests) + [DeleteCall(id)]
    {
      requests := requests + [DeleteCall(id)];
      if f.NoFault? {
        rows := rows - {id};
      }
      r := f;
    }
  }

  /** An environment variable is usable when it is set and not empty. */
  predicate Configured(v: Option<string>)
  {
    StringTruthy(v)
  }

  class SupabaseAuth {
    /** The client, `null` until `createClient` has succeeded; the table it
        talks to stands for it. */
    var supabase: SessionTable?
    const clientId: string
    var initialized: bool

    /** The client exists exactly when initialisation has completed. */
    predicate Valid()
      reads this
    {
      initialized == (supabase != null)
    }

    constructor()
      ensures supabase == null && clientId == "whatsapp-bot" && !initialized
      ensures Valid()
    {
      supabase := null;
      clientId := "whatsapp-bot";
      initialized := false;
    }

    /** `initialize()`. `url` and `key` are `SUPABASE_URL` and
        `SUPABASE_ANON_KEY`; `connects` says whether `createClient` returns
        (rather than throws) a client for `backend`; `rpc` is how the
        table-creation call ends, which never matters. */
    method Initialize(url: Option<string>, key: Option<string>, connects: bool, backend: SessionTable, rpc: Fault)
      requires Valid()
      modifies this, backend
      ensures Valid()
      ensures old(initialized) ==> supabase == old(supabase) && initialized && unchanged(backend)
      ensures !old(initialized) && !(Configured(url) && Configured(key) && connects) ==>
                supabase == null && !initialized && unchanged(backend)
      ensures !old(initialized) && Configured(url) && Configured(key) && connects ==>
                supabase == backend && initialized &&
                backend.rows == old(backend.rows) && backend.requests == old(backend.requests) + [CreateTableCall]
    {
      if initialized {
        return;
      }
      if !Configured(url) || !Configured(key) {
        return;
      }
      if !connects {
        return;   // createClient threw: caught before anything was assigned
      }
      supabase := backend;
      CreateTableIfNotExists(rpc);
      initialized := true;
    }

    /** `createTableIfNotExists()`: asks for the table once there is a
        client; an error answer or an exception is swallowed. */
    method CreateTableIfNotExists(rpc: Fault)
      modifies supabase
      ensures supabase != null ==>
                supabase.rows == old(supabase.rows) && supabase.requests == old(supabase.requests) + [CreateTableCall]
    {
      if supabase == null {
        return;
      }
      var _ := supabase.Rpc(rpc);
    }

    /** `saveSession(sessionData)`: upserts the bot's row; true exactly when
        the backend reported no error and nothing was thrown. */
    method SaveSession(sessionData: JsonValue, f: Fault) returns (ok: bool)
      modifies supabase
      ensures supabase == null ==> !ok
      ensures supabase != null ==>
                && ok == f.NoFault?
                && supabase.rows == Saved(old(supabase.rows), clientId, sessionData, f)
                && supabase.requests == old(supabase.requests) + [UpsertCall(clientId, sessionData)]
    {
      if supabase == null {
        return false;
      }
      var error := supabase.Upsert(clientId, sessionData, f);
      ok := error.NoFault?;
    }

    /** `loadSession()`: the stored session, or `null`. */
    method LoadSession(f: Fault) returns (data: JsonValue)
      modifies supabase
      ensures supabase == null ==> data == Null
      ensures supabase != null ==>
                && data == Loaded(Selected(old(supabase.rows), clientId, f))
                && supabase.rows == old(supabase.rows)
                && supabase.requests == old(supabase.requests) + [SelectCall(clientId)]
    {
      if supabase == null {
        return Null;
      }
      var reply := supabase.Select(clientId, f);
      data := Loaded(reply);
    }

    /** `deleteSession()`: deletes the bot's row; true exactly when the
        backend reported no error and nothing was thrown. */
    method DeleteSession(f: Fault) returns (ok: bool)
      modifies supabase
      ensures supabase == null ==> !ok
      ensures supabase != null ==>
                && ok == f.NoFault?
                && supabase.rows == Deleted(old(supabase.rows), clientId, f)
                && supabase.requests == old(supabase.requests) + [DeleteCall(clientId)]
    {
      if supabase == null {
        return false;
      }
      var error := supabase.Delete(clientId, f);
      ok := error.NoFault?;
    }
  }

  /** The round trip on one initialised wrapper: a successful
      `saveSession(s)` followed by a successful `loadSession()` returns `s`,
      and a successful `deleteSession()` followed by any `loadSession()`
      returns `null`. */
  method SaveLoadDelete(auth: SupabaseAuth, s: JsonValue, f: Fault) returns (saved: bool, loaded: JsonValue, deleted: bool, reloaded: JsonValue)
    requires auth.Valid() && auth.initialized
    modifies auth.supabase
    ensures saved && loaded == s && deleted && reloaded == Null
  {
    saved := auth.SaveSession(s, NoFault);
    loaded := auth.LoadSession(NoFault);
    deleted := auth.DeleteSession(NoFault);
    reloaded := auth.LoadSession(f);
  }

  /** A successful save followed by a successful load gives back what was
      saved; the last save wins. */
  lemma LoadAfterSave(rows: map<string, JsonValue>, id: string, earlier: JsonValue, s: JsonValue)
    ensures Loaded(Selected(Saved(rows, id, s, NoFault), id, NoFault)) == s
    ensures Saved(Saved(rows, id, earlier, NoFault), id, s, NoFault) == Saved(rows, id, s, NoFault)
  {
  }

  /** After a successful delete, a load finds nothing, whatever its outcome. */
  lemma LoadAfterDelete(rows: map<string, JsonValue>, id: string, f: Fault)
    ensures Loaded(Selected(Deleted(rows, id, NoFault), id, f)) == Null
  {
  }

  /** A load that does not succeed, and a load of a missing row, give
      `null`; with no fault a load gives the stored value. */
  lemma LoadOutcomes(rows: map<string, JsonValue>, id: string, f: Fault)
    ensures !f.NoFault? ==> Loaded(Selected(rows, id, f)) == Null
    ensures id !in rows ==> Loaded(Selected(rows, id, f)) == Null
    ensures f.NoFault? && id in rows ==> Loaded(Selected(rows, id, f)) == rows[id]
  {
  }

  /** A failed save or delete leaves the rows alone. */
  lemma FailedWritesChangeNothing(rows: map<string, JsonValue>, id: string, data: JsonValue, f: Fault)
    requires !f.NoFault?
    ensures Saved(rows, id, data, f) == rows && Deleted(rows, id, f) == rows
  {
  }

  /** Writes for one client id do not touch the rows of other ids. */
  lemma OtherRowsUntouched(rows: map<string, JsonValue>, id: string, other: string, data: JsonValue, f: Fault)
    requires other != id
    ensures other in Saved(rows, id, data, f) <==> other in rows
    ensures other in Deleted(rows, id, f) <==> other in rows
    ensures other in rows ==> Saved(rows, id, data, f)[other] == rows[other] && Deleted(rows, id, f)[other] == rows[other]
  {
  }
}
