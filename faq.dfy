/**
  The FAQ auto-reply: an incoming message is lower-cased and trimmed, and
  the bot replies with the answer of the first keyword, in the table's
  order, that occurs in it; at most one reply is sent.
 */
module Faq {
  import opened JsValues

  datatype Entry = Entry(keyword: string, response: string)

  const PnrLong := "PNR stands for Passenger Name Record. It's a unique identifier for your booking that contains all your travel details including passenger information, flight details, and booking status."
  const PnrShort := "PNR stands for Passenger Name Record. It's a unique identifier for your booking."
  const BookingStatus := "To check your booking status, please provide your PNR number."
  const CancelBooking := "To cancel your booking, please contact our support team with your PNR number."
  const HelpText := "Available commands:\n\U{2022} What is PNR?\n\U{2022} Booking status\n\U{2022} Cancel booking\n\U{2022} Help\n\nFor more assistance, please contact our support team."

  /** The table in declaration order, which is the order `Object.entries`
      yields its string keys. */
  const FaqTable: seq<Entry> := [
    Entry("what is pnr", PnrLong),
    Entry("pnr", PnrShort),
    Entry("booking status", BookingStatus),
    Entry("cancel booking", CancelBooking),
    Entry("help", HelpText)
  ]

  /** The text the keywords are searched in: no ASCII capital, and no white
      space at either end. */
  function Normalize(body: string): (t: string)
    ensures forall i :: 0 <= i < |t| ==> !('A' <= t[i] <= 'Z')
    ensures t == [] || (!IsSpace(t[0]) && !IsSpace(t[|t| - 1]))
    ensures |t| <= |body|
  {
    var lower := ToLowerCase(body);
    TrimKeeps(lower, c => !('A' <= c <= 'Z'));
    Trim(lower)
  }

  /** The index of the first entry, from `from` on, whose keyword occurs in
      `text`. */
  function FirstMatch(text: string, table: seq<Entry>, from: nat): (r: Option<nat>)
    requires from <= |table|
    ensures r.Some? ==> from <= r.value < |table| && Includes(text, table[r.value].keyword)
    ensures r.Some? ==> forall j :: from <= j < r.value ==> !Includes(text, table[j].keyword)
    ensures r.None? <==> forall j :: from <= j < |table| ==> !Includes(text, table[j].keyword)
    decreases |table| - from
  {
    if from == |table| then None
    else if Includes(text, table[from].keyword) then Some(from)
    else FirstMatch(text, table, from + 1)
  }

  /** The reply the bot sends to a message, if any: always the answer of a
      keyword that occurs in the normalised message. */
  function Answer(body: string): (r: Option<string>)
    ensures r.Some? ==> exists i :: 0 <= i < |FaqTable| && r.value == FaqTable[i].response &&
                                  Includes(Normalize(body), FaqTable[i].keyword)
  {
    match FirstMatch(Normalize(body), FaqTable, 0)
    case None => None
    case Some(i) => Some(FaqTable[i].response)
  }

  /** The `message` handler: walks the table in order and stops at the first
      keyword found. */
  method ReplyTo(body: string) returns (reply: Option<string>)
    ensures reply == Answer(body)
  {
    var text := Normalize(body);
    reply := None;
    for i := 0 to |FaqTable|
      invariant reply == None
      invariant forall j :: 0 <= j < i ==> !Includes(text, FaqTable[j].keyword)
    {
      if Includes(text, FaqTable[i].keyword) {
        reply := Some(FaqTable[i].response);
        FirstIs(text, FaqTable, 0, i);
        return;
      }
    }
  }

  /** An entry whose keyword occurs, with no earlier one occurring, is the
      first match. */
  lemma FirstIs(text: string, table: seq<Entry>, from: nat, i: nat)
    requires from <= i < |table| && Includes(text, table[i].keyword)
    requires forall j :: from <= j < i ==> !Includes(text, table[j].keyword)
    ensures FirstMatch(text, table, from) == Some(i)
  {
    var r := FirstMatch(text, table, from);
    assert r.Some?;
    assert !(r.value < i);
  }

  /** No two entries share an answer, so an answer names its entry. */
  lemma ResponsesDistinct(i: nat, j: nat)
    requires i < |FaqTable| && j < |FaqTable| && i != j
    ensures FaqTable[i].response != FaqTable[j].response
  {
    assert |PnrLong| == 186 && |PnrShort| == 80 && |BookingStatus| == 61;
    assert |CancelBooking| == 77 && |HelpText| == 130;
  }

  /** The reply is the answer of entry `i` exactly when its keyword occurs
      and no earlier keyword does. */
  lemma AnswerIsFirstKeyword(body: string, i: nat)
    requires i < |FaqTable|
    ensures Answer(body) == Some(FaqTable[i].response) <==>
            Includes(Normalize(body), FaqTable[i].keyword) &&
            forall j :: 0 <= j < i ==> !Includes(Normalize(body), FaqTable[j].keyword)
  {
    var text := Normalize(body);
    var r := FirstMatch(text, FaqTable, 0);
    if r.Some? && r.value != i {
      ResponsesDistinct(r.value, i);
    }
    if Includes(text, FaqTable[i].keyword) && forall j :: 0 <= j < i ==> !Includes(text, FaqTable[j].keyword) {
      FirstIs(text, FaqTable, 0, i);
    }
  }

  /** There is no reply exactly when no keyword occurs. */
  lemma NoKeywordNoReply(body: string)
    ensures Answer(body) == None <==>
            forall j :: 0 <= j < |FaqTable| ==> !Includes(Normalize(body), FaqTable[j].keyword)
  {
  }

  /** The reply does not depend on the case of ASCII letters: lowering the
      message first changes nothing. */
  lemma AnswerIgnoresCase(body: string)
    ensures Answer(ToLowerCase(body)) == Answer(body)
  {
    ToLowerCaseIdempotent(body);
  }

  /** Any message containing "what is pnr" gets the long answer, never the
      short one for "pnr" that it also contains. */
  lemma WhatIsPnrGetsLongAnswer(body: string)
    requires Includes(Normalize(body), "what is pnr")
    ensures Answer(body) == Some(PnrLong)
  {
    FirstIs(Normalize(body), FaqTable, 0, 0);
  }

  /** A message that is shorter than every keyword once trimmed gets no
      reply. */
  lemma ShortMessageNoReply(body: string)
    requires |Normalize(body)| < 3
    ensures Answer(body) == None
  {
    var text := Normalize(body);
    forall j | 0 <= j < |FaqTable| ensures !Includes(text, FaqTable[j].keyword) {
      assert |FaqTable[j].keyword| >= 3;
    }
  }

  /** Trimming leaves a string alone when it neither starts nor ends with
      white space. */
  lemma TrimUnspaced(s: string)
    requires s != [] && !IsSpace(s[0]) && !IsSpace(s[|s| - 1])
    ensures Trim(s) == s
  {
    var a, b :| 0 <= a <= b <= |s| && Trim(s) == s[a..b]
                && (forall k :: 0 <= k < a ==> IsSpace(s[k]))
                && (forall k :: b <= k < |s| ==> IsSpace(s[k]));
    assert a == 0;
    assert b == |s|;
  }

  lemma NormalizeQuestion()
    ensures Normalize("What is PNR?") == "what is pnr?"
  {
    assert ToLowerCase("What is PNR?") == "what is pnr?";
    TrimUnspaced("what is pnr?");
  }

  /** "What is PNR?" is answered with the long explanation. */
  lemma WhatIsPnrQuestion()
    ensures Answer("What is PNR?") == Some(PnrLong)
  {
    NormalizeQuestion();
    assert OccursAt("what is pnr?", "what is pnr", 0);
    WhatIsPnrGetsLongAnswer("What is PNR?");
  }
}
