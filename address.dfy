/**
  The text-to-address pipeline of the booking relay: `extractPhoneNumber`
  pulls the country code and the phone number out of an e-mail body with
  JavaScript regular expressions, and `formatWhatsAppNumber` turns the result
  into a WhatsApp chat id `<digits>@c.us`.

  `String.prototype.match` with a non-global regular expression tries the
  pattern at index 0, 1, ..., |s| in turn and returns the first success
  (ECMA-262 section 22.2.7.2, RegExpBuiltinExec). At one index the
  backtracking matcher returns the first success in its preference order:
  a greedy quantifier prefers more repetitions, a lazy one fewer.
 */
module Address {
  import opened JsValues

  /** A labelled field pattern `key\s*(\d+)`, or `key\s*(\+\d+)` when
      `signed`, matched case-insensitively. */
  datatype Marker = Marker(key: string, signed: bool)

  /** `/CountryCode:\s*(\+\d+)/i` */
  const CountryCode := Marker("CountryCode:", true)

  /** `/Phone:\s*(\d+)/i` */
  const Phone := Marker("Phone:", false)

  /** The half-open index range `[start, end)` of a capture group. */
  datatype Span = Span(start: nat, end: nat)

  /** Case-insensitive occurrence of `key` at index `p`. */
  predicate LabelAt(s: string, p: nat, key: string)
    decreases key
  {
    && p + |key| <= |s|
    && (key == [] || (Canonicalize(s[p]) == Canonicalize(key[0]) && LabelAt(s, p + 1, key[1..])))
  }

  /** A well-formed capture of the marker's group: an optional `+` (required
      when signed), then at least one ASCII digit, and the digit run is
      maximal. */
  predicate IsCapture(s: string, mk: Marker, sp: Span)
  {
    var d := sp.start + (if mk.signed then 1 else 0);
    && d < sp.end <= |s|
    && (mk.signed ==> s[sp.start] == '+')
    && (forall i :: d <= i < sp.end ==> IsDigit(s[i]))
    && (sp.end < |s| ==> !IsDigit(s[sp.end]))
  }

  function Text(s: string, sp: Span): (t: string)
    requires sp.start <= sp.end <= |s|
    ensures |t| == sp.end - sp.start
  {
    s[sp.start..sp.end]
  }

  /** The marker's pattern tried at index `p` alone: the capture group of the
      match the backtracking matcher returns there, if any. `\s*` takes the
      whole white-space run (the next atom, `+` or a digit, is not white
      space) and `\d+` the whole digit run (nothing follows it). */
  function MarkerAt(s: string, p: nat, mk: Marker): (r: Option<Span>)
    ensures r.Some? ==> IsCapture(s, mk, r.value)
    ensures r.Some? ==> p + |mk.key| <= r.value.start
  {
    if LabelAt(s, p, mk.key) then
      var j := RunEnd(s, p + |mk.key|, IsSpace);
      if mk.signed && (j == |s| || s[j] != '+') then None
      else
        var d := if mk.signed then j + 1 else j;
        var e := RunEnd(s, d, IsDigit);
        if d < e then Some(Span(j, e)) else None
    else None
  }

  /** The pattern matches at `p` with `\s*` taking `k` characters and `\d+`
      taking `n` digits: one of the ways the backtracking matcher could
      succeed at `p`. */
  ghost predicate PatternMatch(s: string, p: nat, mk: Marker, k: nat, n: nat)
  {
    var w := p + |mk.key|;
    var d := w + k + (if mk.signed then 1 else 0);
    && LabelAt(s, p, mk.key)
    && 1 <= n && d + n <= |s|
    && (forall i :: w <= i < w + k ==> IsSpace(s[i]))
    && (mk.signed ==> s[w + k] == '+')
    && (forall i :: d <= i < d + n ==> IsDigit(s[i]))
  }

  /** MarkerAt is exactly the regular expression at one index: it succeeds
      iff some way of matching exists, it is itself one of them, and every
      way of matching uses the same white-space run and no more digits, so
      it is the one greedy backtracking prefers. */
  lemma MarkerAtIsPreferredMatch(s: string, p: nat, mk: Marker)
    ensures MarkerAt(s, p, mk).Some? <==> exists k: nat, n: nat :: PatternMatch(s, p, mk, k, n)
    ensures MarkerAt(s, p, mk).Some? ==>
      var sp := MarkerAt(s, p, mk).value;
      var k := sp.start - (p + |mk.key|);
      var d := sp.start + (if mk.signed then 1 else 0);
      PatternMatch(s, p, mk, k, sp.end - d)
    ensures forall k: nat, n: nat :: PatternMatch(s, p, mk, k, n) ==>
      MarkerAt(s, p, mk).Some? &&
      MarkerAt(s, p, mk).value.start == p + |mk.key| + k &&
      MarkerAt(s, p, mk).value.start + (if mk.signed then 1 else 0) + n <= MarkerAt(s, p, mk).value.end
  {
    var w := p + |mk.key|;
    forall k: nat, n: nat | PatternMatch(s, p, mk, k, n)
      ensures MarkerAt(s, p, mk).Some?
      ensures MarkerAt(s, p, mk).value.start == w + k
      ensures MarkerAt(s, p, mk).value.start + (if mk.signed then 1 else 0) + n <= MarkerAt(s, p, mk).value.end
    {
      var j := RunEnd(s, w, IsSpace);
      // the character after the k spaces is `+` or a digit, so the run ends there
      assert !IsSpace(s[w + k]);
      assert j == w + k;
    }
    if MarkerAt(s, p, mk).Some? {
      var sp := MarkerAt(s, p, mk).value;
      var d := sp.start + (if mk.signed then 1 else 0);
      assert PatternMatch(s, p, mk, sp.start - w, sp.end - d);
    }
  }

  /** Index of the first `q` in `[lo, hi]` at which `hit` holds. */
  function FirstIndex(lo: nat, hi: nat, hit: nat -> bool): (r: Option<nat>)
    ensures r.Some? ==> lo <= r.value <= hi && hit(r.value)
    ensures r.Some? ==> forall q :: lo <= q < r.value ==> !hit(q)
    ensures r.None? ==> forall q :: lo <= q <= hi ==> !hit(q)
    decreases hi + 1 - lo
  {
    if lo > hi then None
    else if hit(lo) then Some(lo)
    else FirstIndex(lo + 1, hi, hit)
  }

  /** The pattern's match starts at `p` and at no earlier index. */
  ghost predicate IsLeftmost(s: string, p: nat, mk: Marker)
  {
    p <= |s| && MarkerAt(s, p, mk).Some? && forall q: nat :: q < p ==> MarkerAt(s, q, mk).None?
  }

  /** `s.match(re)` for a marker: the capture group of the leftmost match. */
  function Match(s: string, mk: Marker): (r: Option<Span>)
    ensures r.Some? ==> IsCapture(s, mk, r.value)
  {
    var hit := (p: nat) => MarkerAt(s, p, mk).Some?;
    assert forall p: nat :: hit(p) == MarkerAt(s, p, mk).Some?;
    match FirstIndex(0, |s|, hit)
    case None => None
    case Some(p) =>
      assert IsLeftmost(s, p, mk);
      MarkerAt(s, p, mk)
  }

  /** Match is the leftmost match: it fails exactly when the pattern matches
      at no index, and otherwise it is the match at an index before which
      the pattern matches nowhere. */
  lemma MatchIsLeftmost(s: string, mk: Marker)
    ensures Match(s, mk).None? <==> forall p: nat :: p <= |s| ==> MarkerAt(s, p, mk).None?
    ensures Match(s, mk).Some? ==> exists p: nat :: IsLeftmost(s, p, mk) && Match(s, mk) == MarkerAt(s, p, mk)
  {
    var hit := (p: nat) => MarkerAt(s, p, mk).Some?;
    assert forall p: nat :: hit(p) == MarkerAt(s, p, mk).Some?;
    var r := FirstIndex(0, |s|, hit);
    if r.Some? {
      assert IsLeftmost(s, r.value, mk);
    }
  }

  /** No line terminator in `s[a..b]`: the lazy `.*?` can step from `a` to `b`. */
  predicate LineFree(s: string, a: nat, b: nat)
  {
    a <= b <= |s| && forall i :: a <= i < b ==> !IsLineTerminator(s[i])
  }

  /** `.*?Phone:\s*(\d+)` from index `a`: the first index from `a` on where
      the phone marker matches, without a line terminator before it. */
  function LazyPhoneSearch(s: string, a: nat): (r: Option<nat>)
    ensures r.Some? ==> a <= r.value <= |s| && LineFree(s, a, r.value) && MarkerAt(s, r.value, Phone).Some?
  {
    var hit := (q: nat) => LineFree(s, a, q) && MarkerAt(s, q, Phone).Some?;
    assert forall q: nat :: hit(q) == (LineFree(s, a, q) && MarkerAt(s, q, Phone).Some?);
    FirstIndex(a, |s|, hit)
  }

  /** The lazy search stops at the first phone marker it can reach, and
      fails only when it can reach none. */
  lemma LazyPhoneSearchIsFirst(s: string, a: nat)
    ensures var r := LazyPhoneSearch(s, a);
      r.Some? ==> forall q: nat :: a <= q < r.value ==> !LineFree(s, a, q) || MarkerAt(s, q, Phone).None?
    ensures var r := LazyPhoneSearch(s, a);
      r.None? ==> forall q: nat :: a <= q <= |s| ==> !LineFree(s, a, q) || MarkerAt(s, q, Phone).None?
  {
    var hit := (q: nat) => LineFree(s, a, q) && MarkerAt(s, q, Phone).Some?;
    assert forall q: nat :: hit(q) == (LineFree(s, a, q) && MarkerAt(s, q, Phone).Some?);
    assert LazyPhoneSearch(s, a) == FirstIndex(a, |s|, hit);
  }

  /** The fallback `/CountryCode:\s*(\+\d+).*?Phone:\s*(\d+)/i` tried at
      index `p` alone. `.*?` tries the shortest stretch first and `.` does
      not match a line terminator, so the phone marker is the first one that
      matches after the country code without crossing a line break. Giving
      `\d+` back fewer digits cannot help, since no phone marker starts on a
      digit (lemma FallbackBacktrackingAgrees). */
  function FallbackAt(s: string, p: nat): (r: Option<(Span, Span)>)
    ensures r.Some? ==> IsCapture(s, CountryCode, r.value.0) && IsCapture(s, Phone, r.value.1)
    ensures r.Some? ==> MarkerAt(s, p, CountryCode) == Some(r.value.0)
  {
    match MarkerAt(s, p, CountryCode)
    case None => None
    case Some(cc) =>
      match LazyPhoneSearch(s, cc.end)
      case None => None
      case Some(q) => Some((cc, MarkerAt(s, q, Phone).value))
  }

  /** `s.match(singleLineRegex)`: the two capture groups of the leftmost match. */
  function FallbackMatch(s: string): (r: Option<(Span, Span)>)
    ensures r.Some? ==> IsCapture(s, CountryCode, r.value.0) && IsCapture(s, Phone, r.value.1)
  {
    var hit := (p: nat) => FallbackAt(s, p).Some?;
    assert forall p: nat :: hit(p) == FallbackAt(s, p).Some?;
    match FirstIndex(0, |s|, hit)
    case None => None
    case Some(p) => FallbackAt(s, p)
  }

  /** A fallback match is the match of the fallback at some index. */
  lemma FallbackMatchAt(s: string)
    requires FallbackMatch(s).Some?
    ensures exists p: nat :: p <= |s| && FallbackAt(s, p) == FallbackMatch(s)
  {
    var hit := (p: nat) => FallbackAt(s, p).Some?;
    assert forall p: nat :: hit(p) == FallbackAt(s, p).Some?;
    var p := FirstIndex(0, |s|, hit).value;
    assert FallbackAt(s, p) == FallbackMatch(s);
  }

  /** The address a country-code capture and a phone capture make together:
      `+`, then ASCII digits only, at least two of them. */
  function Concat(s: string, cc: Span, ph: Span): (r: string)
    requires IsCapture(s, CountryCode, cc) && IsCapture(s, Phone, ph)
    ensures |r| >= 3 && r[0] == '+'
    ensures forall i :: 1 <= i < |r| ==> IsDigit(r[i])
  {
    var a := Text(s, cc);
    var b := Text(s, ph);
    assert forall i :: 1 <= i < |a| ==> a[i] == s[cc.start + i];
    assert forall i :: 0 <= i < |b| ==> b[i] == s[ph.start + i];
    a + b
  }

  /** `extractPhoneNumber(emailBody)`, with its fallback, as written. Every
      result is `+`, then the country-code digits, then the phone digits. */
  function ExtractPhoneNumber(body: string): (r: Option<string>)
    ensures r.Some? ==> |r.value| >= 3 && r.value[0] == '+'
    ensures r.Some? ==> forall i :: 1 <= i < |r.value| ==> IsDigit(r.value[i])
  {
    var cc := Match(body, CountryCode);
    var ph := Match(body, Phone);
    if cc.Some? && ph.Some? then
      Some(Concat(body, cc.value, ph.value))
    else
      match FallbackMatch(body)
      case Some((c, n)) => Some(Concat(body, c, n))
      case None => None
  }

  /** Every match of the fallback contains a match of each separate pattern. */
  lemma FallbackImpliesBothMarkers(s: string)
    requires FallbackMatch(s).Some?
    ensures Match(s, CountryCode).Some? && Match(s, Phone).Some?
  {
    FallbackMatchAt(s);
    var p: nat :| p <= |s| && FallbackAt(s, p) == FallbackMatch(s);
    var cc := MarkerAt(s, p, CountryCode).value;
    var q := LazyPhoneSearch(s, cc.end).value;
    MatchIsLeftmost(s, CountryCode);
    MatchIsLeftmost(s, Phone);
    assert MarkerAt(s, p, CountryCode).Some? && MarkerAt(s, q, Phone).Some?;
  }

  /** The fallback never changes the answer: the result is non-null exactly
      when both separate patterns match, and is then the country-code
      capture of the leftmost `CountryCode:` match followed by the digit run
      of the leftmost `Phone:` match, whichever comes first in the body. */
  lemma ExtractPhoneNumberSpec(s: string)
    ensures ExtractPhoneNumber(s).Some? <==> Match(s, CountryCode).Some? && Match(s, Phone).Some?
    ensures ExtractPhoneNumber(s).Some? ==>
      exists p: nat, q: nat :: IsLeftmost(s, p, CountryCode) && IsLeftmost(s, q, Phone) &&
        ExtractPhoneNumber(s).value == Text(s, MarkerAt(s, p, CountryCode).value) + Text(s, MarkerAt(s, q, Phone).value)
  {
    if FallbackMatch(s).Some? {
      FallbackImpliesBothMarkers(s);
    }
    var cc := Match(s, CountryCode);
    var ph := Match(s, Phone);
    MatchIsLeftmost(s, CountryCode);
    MatchIsLeftmost(s, Phone);
    if cc.Some? && ph.Some? {
      var p :| IsLeftmost(s, p, CountryCode) && cc == MarkerAt(s, p, CountryCode);
      var q :| IsLeftmost(s, q, Phone) && ph == MarkerAt(s, q, Phone);
      assert ExtractPhoneNumber(s).value == Text(s, MarkerAt(s, p, CountryCode).value) + Text(s, MarkerAt(s, q, Phone).value);
    }
  }

  /** `phoneNumber.replace(/[^\d+]/g, '')`. */
  function KeepDigitsAndPlus(s: string): (r: string)
    ensures |r| <= |s|
    ensures forall i :: 0 <= i < |r| ==> IsDigit(r[i]) || r[i] == '+'
  {
    if s == [] then []
    else (if IsDigit(s[0]) || s[0] == '+' then [s[0]] else []) + KeepDigitsAndPlus(s[1..])
  }

  const ChatSuffix := "@c.us"

  /** `formatWhatsAppNumber(phoneNumber)`: total; the result is the kept
      digits and `+` signs without a leading `+`, then `@c.us`. */
  function FormatWhatsAppNumber(phone: string): (r: string)
    ensures |r| >= |ChatSuffix| && r[|r| - |ChatSuffix|..] == ChatSuffix
    ensures var f := KeepDigitsAndPlus(phone);
            r[..|r| - |ChatSuffix|] == if |f| > 0 && f[0] == '+' then f[1..] else f
  {
    var formatted := KeepDigitsAndPlus(phone);
    var prefixed := if |formatted| > 0 && formatted[0] == '+' then formatted else "+" + formatted;
    prefixed[1..] + ChatSuffix
  }

  /** Two searches agree when the first finds nothing before the second
      starts and both test the same thing from there on. */
  lemma {:induction false} FirstIndexSkip(lo1: nat, lo2: nat, hi: nat, hit1: nat -> bool, hit2: nat -> bool)
    requires lo1 <= lo2 <= hi + 1
    requires forall q :: lo1 <= q < lo2 ==> !hit1(q)
    requires forall q :: lo2 <= q <= hi ==> hit1(q) == hit2(q)
    ensures FirstIndex(lo1, hi, hit1) == FirstIndex(lo2, hi, hit2)
    decreases hi + 1 - lo1
  {
    if lo1 < lo2 {
      FirstIndexSkip(lo1 + 1, lo2, hi, hit1, hit2);
    } else if lo1 <= hi {
      if !hit1(lo1) {
        FirstIndexSkip(lo1 + 1, lo2 + 1, hi, hit1, hit2);
      }
    }
  }

  /** Backtracking inside the fallback cannot change its result: if `\d+`
      in the country code gives back digits, the lazy search for `Phone:`
      starts on a digit, where no phone marker begins, and crosses no line
      terminator that the longer capture did not, so it finds the same
      phone marker. */
  lemma FallbackBacktrackingAgrees(s: string, p: nat, e: nat)
    requires MarkerAt(s, p, CountryCode).Some?
    requires MarkerAt(s, p, CountryCode).value.start + 1 < e <= MarkerAt(s, p, CountryCode).value.end
    ensures LazyPhoneSearch(s, e) == LazyPhoneSearch(s, MarkerAt(s, p, CountryCode).value.end)
  {
    var cc := MarkerAt(s, p, CountryCode).value;
    assert IsCapture(s, CountryCode, cc);
    assert forall i :: e <= i < cc.end ==> IsDigit(s[i]);
    var hit1 := (q: nat) => LineFree(s, e, q) && MarkerAt(s, q, Phone).Some?;
    var hit2 := (q: nat) => LineFree(s, cc.end, q) && MarkerAt(s, q, Phone).Some?;
    forall q: nat | e <= q < cc.end ensures !hit1(q) {
      NoMarkerOnDigit(s, q, Phone);
    }
    forall q: nat | cc.end <= q <= |s| ensures hit1(q) == hit2(q) {
      assert LineFree(s, e, q) == LineFree(s, cc.end, q);
    }
    FirstIndexSkip(e, cc.end, |s|, hit1, hit2);
    assert LazyPhoneSearch(s, e) == FirstIndex(e, |s|, hit1);
    assert LazyPhoneSearch(s, cc.end) == FirstIndex(cc.end, |s|, hit2);
  }

  /** A marker whose key begins with a letter does not match at a digit. */
  lemma NoMarkerOnDigit(s: string, q: nat, mk: Marker)
    requires q < |s| && IsDigit(s[q])
    requires |mk.key| > 0 && 'A' <= mk.key[0] <= 'Z'
    ensures MarkerAt(s, q, mk).None?
  {
  }

  /** Removing the unwanted characters works piece by piece. */
  lemma {:induction false} KeepDigitsAndPlusAppend(a: string, b: string)
    ensures KeepDigitsAndPlus(a + b) == KeepDigitsAndPlus(a) + KeepDigitsAndPlus(b)
  {
    if a == [] {
      assert a + b == b;
    } else {
      assert (a + b)[1..] == a[1..] + b;
      KeepDigitsAndPlusAppend(a[1..], b);
    }
  }

  /** A string with no digit and no `+` leaves nothing. */
  lemma {:induction false} KeepDigitsAndPlusDropsOthers(s: string)
    requires forall i :: 0 <= i < |s| ==> !(IsDigit(s[i]) || s[i] == '+')
    ensures KeepDigitsAndPlus(s) == []
  {
    if s != [] {
      KeepDigitsAndPlusDropsOthers(s[1..]);
    }
  }

  /** A string of digits and `+` signs passes the filter unchanged. */
  lemma {:induction false} KeepDigitsAndPlusKeepsAll(s: string)
    requires forall i :: 0 <= i < |s| ==> IsDigit(s[i]) || s[i] == '+'
    ensures KeepDigitsAndPlus(s) == s
  {
    if s != [] {
      KeepDigitsAndPlusKeepsAll(s[1..]);
    }
  }

  /** The chat suffix has no digit and no `+`. */
  lemma KeepChatSuffix()
    ensures KeepDigitsAndPlus(ChatSuffix) == []
  {
    assert KeepDigitsAndPlus("@c.us") == [];
  }

  /** Formatting `+` followed by digits drops the `+` and appends `@c.us`. */
  lemma FormatSignedDigits(x: string)
    requires |x| >= 1 && x[0] == '+'
    requires forall i :: 1 <= i < |x| ==> IsDigit(x[i])
    ensures FormatWhatsAppNumber(x) == x[1..] + ChatSuffix
  {
    KeepDigitsAndPlusKeepsAll(x);
  }

  /** Formatting an extraction result `+CCNNN` gives `CCNNN@c.us`. */
  lemma FormatExtracted(body: string)
    requires ExtractPhoneNumber(body).Some?
    ensures var x := ExtractPhoneNumber(body).value;
            FormatWhatsAppNumber(x) == x[1..] + ChatSuffix
  {
    var x := ExtractPhoneNumber(body).value;
    FormatSignedDigits(x);
  }

  /** The formatted number, as one string: the kept characters without a
      leading `+`, then the chat suffix. */
  lemma FormatParts(phone: string)
    ensures var f := KeepDigitsAndPlus(phone);
            FormatWhatsAppNumber(phone) == (if |f| > 0 && f[0] == '+' then f[1..] else f) + ChatSuffix
  {
    var r := FormatWhatsAppNumber(phone);
    assert r == r[..|r| - |ChatSuffix|] + r[|r| - |ChatSuffix|..];
  }

  /** Filtering a formatted number gives back its prefix: the suffix
      `@c.us` contributes nothing. */
  lemma KeepFormatted(prefix: string)
    requires forall i :: 0 <= i < |prefix| ==> IsDigit(prefix[i]) || prefix[i] == '+'
    ensures KeepDigitsAndPlus(prefix + ChatSuffix) == prefix
  {
    KeepDigitsAndPlusAppend(prefix, ChatSuffix);
    KeepChatSuffix();
    KeepDigitsAndPlusKeepsAll(prefix);
    assert prefix + [] == prefix;
  }

  /** Formatting twice is formatting once exactly when the filtered input
      does not begin with `++`. */
  lemma FormatIdempotence(phone: string)
    ensures var f := KeepDigitsAndPlus(phone);
            (FormatWhatsAppNumber(FormatWhatsAppNumber(phone)) == FormatWhatsAppNumber(phone)) <==>
            !(|f| >= 2 && f[0] == '+' && f[1] == '+')
  {
    var f := KeepDigitsAndPlus(phone);
    var prefix := if |f| > 0 && f[0] == '+' then f[1..] else f;
    var once := FormatWhatsAppNumber(phone);
    FormatParts(phone);
    KeepFormatted(prefix);
    FormatParts(once);
    if |prefix| > 0 && prefix[0] == '+' {
      assert |FormatWhatsAppNumber(once)| < |once|;
    }
  }

  /** `++91` is formatted to `+91@c.us`: only one `+` is removed. */
  lemma FormatDoublePlus()
    ensures FormatWhatsAppNumber("++91") == "+91@c.us"
  {
    assert KeepDigitsAndPlus("++91") == "++91";
  }

  /** Formatting `+91@c.us` again gives `91@c.us`, so formatting is not
      idempotent on `++91`. */
  lemma FormatDoublePlusAgain()
    ensures FormatWhatsAppNumber("+91@c.us") == "91@c.us"
  {
    assert "+91@c.us" == "+91" + ChatSuffix;
    KeepFormatted("+91");
    assert KeepDigitsAndPlus("+91@c.us") == "+91";
    assert "+91"[1..] + ChatSuffix == "91@c.us";
  }

  /** A string of one or more ASCII digits. */
  predicate IsDigits(t: string)
  {
    |t| >= 1 && forall i :: 0 <= i < |t| ==> IsDigit(t[i])
  }

  /** An exact occurrence of the key is a case-insensitive one. */
  lemma {:induction false} LabelAtExact(s: string, p: nat, key: string)
    requires p + |key| <= |s| && s[p..p + |key|] == key
    ensures LabelAt(s, p, key)
    decreases key
  {
    if key != [] {
      assert s[p + 1..p + 1 + |key[1..]|] == key[1..];
      LabelAtExact(s, p + 1, key[1..]);
    }
  }

  /** A marker does not match where the key's first letter is absent. */
  lemma NoMarkerHere(s: string, q: nat, mk: Marker)
    requires |mk.key| > 0
    requires q < |s| ==> Canonicalize(s[q]) != Canonicalize(mk.key[0])
    ensures MarkerAt(s, q, mk).None?
  {
  }

  /** No character of `t` is `c` up to ASCII case. */
  predicate Avoids(t: string, c: char)
  {
    forall i :: 0 <= i < |t| ==> Canonicalize(t[i]) != c
  }

  /** The marker written plainly at `p`: its key exactly, one space, the
      `+` when signed, then digits up to `e`, where a non-digit or the end
      of the body follows. */
  predicate Written(s: string, p: nat, mk: Marker, e: nat)
  {
    var w := p + |mk.key|;
    var d := w + 1 + (if mk.signed then 1 else 0);
    && d < e <= |s|
    && s[p..w] == mk.key
    && s[w] == ' '
    && (mk.signed ==> s[w + 1] == '+')
    && IsDigits(s[d..e])
    && (e < |s| ==> !IsDigit(s[e]))
  }

  /** A plainly written marker matches at `p` with its digits. */
  lemma MarkerAtWritten(s: string, p: nat, mk: Marker, e: nat)
    requires Written(s, p, mk, e)
    ensures MarkerAt(s, p, mk) == Some(Span(p + |mk.key| + 1, e))
  {
    var d := p + |mk.key| + 1 + (if mk.signed then 1 else 0);
    LabelAtExact(s, p, mk.key);
    assert forall i :: d <= i < e ==> s[i] == s[d..e][i - d];
    assert PatternMatch(s, p, mk, 1, e - d);
    MarkerAtIsPreferredMatch(s, p, mk);
  }

  /** The leftmost match of a marker is at `p` when it matches there and no
      character before `p` is the key's first letter. */
  lemma MatchAt(s: string, p: nat, mk: Marker)
    requires p <= |s| && |mk.key| > 0 && MarkerAt(s, p, mk).Some?
    requires forall q :: 0 <= q < p ==> Canonicalize(s[q]) != Canonicalize(mk.key[0])
    ensures Match(s, mk) == MarkerAt(s, p, mk)
  {
    forall q: nat | q < p ensures MarkerAt(s, q, mk).None? {
      NoMarkerHere(s, q, mk);
    }
    MatchIsLeftmost(s, mk);
    var r := Match(s, mk);
    assert r.Some?;
    var p' :| IsLeftmost(s, p', mk) && r == MarkerAt(s, p', mk);
    assert p' == p;
  }

  /** Both markers found give the concatenation of their captures. */
  lemma ExtractFromMatches(s: string, a: nat, b: nat, c: nat, d: nat)
    requires Match(s, CountryCode) == Some(Span(a, b))
    requires Match(s, Phone) == Some(Span(c, d))
    ensures ExtractPhoneNumber(s) == Some(s[a..b] + s[c..d])
  {
  }

  /** A plainly written marker, with no letter before it that could start
      the key, is the leftmost match. */
  lemma MatchAfter(s: string, p: nat, mk: Marker, e: nat)
    requires |mk.key| > 0 && p <= |s|
    requires Avoids(s[..p], Canonicalize(mk.key[0]))
    requires Written(s, p, mk, e)
    ensures Match(s, mk) == Some(Span(p + |mk.key| + 1, e))
  {
    MarkerAtWritten(s, p, mk, e);
    assert forall q :: 0 <= q < p ==> s[q] == s[..p][q];
    MatchAt(s, p, mk);
  }
}
