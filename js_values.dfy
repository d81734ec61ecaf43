/**
  JavaScript values and the pieces of the ECMAScript string and regular
  expression semantics (ECMA-262, 2022 edition) that the bot's handlers rely on.

  Strings are sequences of Unicode scalar values. JavaScript strings are
  sequences of UTF-16 code units; none of the characters the bot's patterns
  look for is a surrogate, so matching is the same in both views.
 */
module JsValues {

  datatype Option<+T> = None | Some(value: T)

  /** A JSON value as body-parser hands it to a route handler, plus `Absent`
      for a property the request body does not have (`undefined`). */
  datatype JsonValue =
    | Absent
    | Null
    | Bool(b: bool)
    | Number(n: real)
    | Str(s: string)
    | Composite   // an array or an object

  /** JavaScript truthiness (ECMA-262 section 7.1.2, ToBoolean): the falsy
      values are `undefined`, `null`, `false`, zero and the empty string
      (`NaN` has no JSON form). */
  predicate Truthy(v: JsonValue)
    ensures !Truthy(v) <==> v in {Absent, Null, Bool(false), Number(0.0), Str("")}
  {
    match v
    case Absent => false
    case Null => false
    case Bool(b) => b
    case Number(n) => n != 0.0
    case Str(s) => s != ""
    case Composite => true
  }

  /** Truthiness of a string-or-null variable such as `currentQR`. */
  predicate StringTruthy(v: Option<string>)
  {
    v.Some? && v.value != ""
  }

  /** `\d` outside unicode mode: the ASCII digits only. */
  predicate IsDigit(c: char)
  {
    '0' <= c <= '9'
  }

  /** LineTerminator (ECMA-262 section 12.3). */
  predicate IsLineTerminator(c: char)
  {
    c == '\n' || c == '\r' || c == '\U{2028}' || c == '\U{2029}'
  }

  /** `\s`: WhiteSpace (section 12.2: TAB, VT, FF, ZWNBSP and every
      character of category Zs) together with LineTerminator. The same set
      is what `String.prototype.trim` removes. */
  predicate IsSpace(c: char)
  {
    || c == '\t' || c == '\U{000B}' || c == '\U{000C}' || c == ' '
    || c == '\U{00A0}' || c == '\U{1680}' || '\U{2000}' <= c <= '\U{200A}'
    || c == '\U{202F}' || c == '\U{205F}' || c == '\U{3000}' || c == '\U{FEFF}'
    || IsLineTerminator(c)
  }

  /** Canonicalize for a regular expression with the `i` flag and without
      the `u` flag (section 22.2.2.7.3): a character is mapped to its upper
      case only when that does not carry a non-ASCII character into ASCII.
      Only ASCII letters are therefore identified with another character
      that can occur in the bot's ASCII patterns; the case mapping of other
      non-ASCII characters never makes them equal to an ASCII character, so
      it is left out here. */
  function Canonicalize(c: char): (r: char)
    ensures IsDigit(c) || c == '+' || c == ':' || 'A' <= c <= 'Z' ==> r == c
    ensures 'a' <= c <= 'z' ==> r as int == c as int - 32
    ensures !('a' <= r <= 'z')
    ensures (r as int < 128) <==> (c as int < 128)
  {
    if 'a' <= c <= 'z' then (c as int - 32) as char else c
  }

  /** `String.prototype.toLowerCase` as far as it can matter for a search
      for ASCII text: ASCII capitals are lowered, and so is U+212A KELVIN
      SIGN, the one non-ASCII character whose lower case is a single ASCII
      letter. Every other character keeps its own value; its real lower case
      is non-ASCII too (or, for U+0130, an `i` followed by a combining dot),
      which never completes an ASCII keyword differently. */
  function LowerChar(c: char): (r: char)
    ensures 'A' <= c <= 'Z' ==> r as int == c as int + 32
    ensures !('A' <= c <= 'Z') && c != '\U{212A}' ==> r == c
    ensures !('A' <= r <= 'Z')
    ensures IsSpace(r) <==> IsSpace(c)
  {
    if 'A' <= c <= 'Z' then (c as int + 32) as char
    else if c == '\U{212A}' then 'k'
    else c
  }

  /** `String.prototype.toLowerCase`: no ASCII capital is left, capitals
      move to their small letters, and every other character but U+212A
      stays where and what it was. */
  function ToLowerCase(s: string): (r: string)
    ensures |r| == |s|
    ensures forall i :: 0 <= i < |r| ==> !('A' <= r[i] <= 'Z')
    ensures forall i :: 0 <= i < |s| && 'A' <= s[i] <= 'Z' ==> r[i] as int == s[i] as int + 32
    ensures forall i :: 0 <= i < |s| && !('A' <= s[i] <= 'Z') && s[i] != '\U{212A}' ==> r[i] == s[i]
  {
    seq(|s|, i requires 0 <= i < |s| => LowerChar(s[i]))
  }

  /** Lowering twice is lowering once. */
  lemma ToLowerCaseIdempotent(s: string)
    ensures ToLowerCase(ToLowerCase(s)) == ToLowerCase(s)
  {
    var t := ToLowerCase(s);
    forall i | 0 <= i < |t| ensures ToLowerCase(t)[i] == t[i] {
      assert t[i] != '\U{212A}' by { assert t[i] == LowerChar(s[i]); }
    }
  }

  /** The end of the longest run, starting at `i`, of characters that
      satisfy `p`. */
  function RunEnd(s: string, i: nat, p: char -> bool): (j: nat)
    requires i <= |s|
    ensures i <= j <= |s|
    ensures forall k :: i <= k < j ==> p(s[k])
    ensures j < |s| ==> !p(s[j])
    decreases |s| - i
  {
    if i < |s| && p(s[i]) then RunEnd(s, i + 1, p) else i
  }

  /** A run of `p`-characters from `i` to `j` that stops at `j` is the
      longest one. */
  lemma RunEndAt(s: string, i: nat, j: nat, p: char -> bool)
    requires i <= j <= |s|
    requires forall k :: i <= k < j ==> p(s[k])
    requires j < |s| ==> !p(s[j])
    ensures RunEnd(s, i, p) == j
  {
  }

  /** Index just after the trailing white space that ends at `j`. */
  function TrimEnd(s: string, j: nat): (r: nat)
    requires j <= |s|
    ensures r <= j
    ensures forall k :: r <= k < j ==> IsSpace(s[k])
    ensures r > 0 ==> !IsSpace(s[r - 1])
  {
    if j > 0 && IsSpace(s[j - 1]) then TrimEnd(s, j - 1) else j
  }

  /** `String.prototype.trim`: strip leading and trailing white space and
      line terminators. */
  function Trim(s: string): (r: string)
    ensures r == [] || (!IsSpace(r[0]) && !IsSpace(r[|r| - 1]))
    ensures exists a, b :: 0 <= a <= b <= |s| && r == s[a..b]
                        && (forall k :: 0 <= k < a ==> IsSpace(s[k]))
                        && (forall k :: b <= k < |s| ==> IsSpace(s[k]))
  {
    var a := RunEnd(s, 0, IsSpace);
    var b := TrimEnd(s, |s|);
    if b <= a then
      assert forall k :: 0 <= k < |s| ==> IsSpace(s[k]) by {
        forall k | 0 <= k < |s| ensures IsSpace(s[k]) {
          if k >= a { assert b <= k; }
        }
      }
      assert s[0..0] == [];
      []
    else
      s[a..b]
  }

  /** Trimming never lengthens a string, and keeps a property that all its
      characters have. */
  lemma TrimKeeps(s: string, p: char -> bool)
    requires forall i :: 0 <= i < |s| ==> p(s[i])
    ensures |Trim(s)| <= |s|
    ensures forall i :: 0 <= i < |Trim(s)| ==> p(Trim(s)[i])
  {
    var a, b :| 0 <= a <= b <= |s| && Trim(s) == s[a..b];
    assert forall i :: 0 <= i < |Trim(s)| ==> Trim(s)[i] == s[a + i];
  }

  /** `t` occurs in `s` starting at index `i`. */
  predicate OccursAt(s: string, t: string, i: nat)
  {
    i + |t| <= |s| && s[i..i + |t|] == t
  }

  /** `String.prototype.includes`: the empty string occurs everywhere, and a
      string occurs only in one at least as long; in one of the same length
      only in itself. */
  predicate Includes(s: string, t: string)
    ensures t == [] ==> Includes(s, t)
    ensures Includes(s, t) ==> |t| <= |s|
    ensures |t| == |s| ==> (Includes(s, t) <==> s == t)
  {
    assert s[0..0] == [] && s[0..|s|] == s;
    assert (t == [] || t == s) ==> OccursAt(s, t, 0);
    exists i: nat | i <= |s| :: OccursAt(s, t, i)
  }
}
