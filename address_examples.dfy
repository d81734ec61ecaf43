/**
  Booking e-mails whose marker lines are written plainly: the two markers on
  separate lines, in either order, and the sample booking.
 */
module AddressExamples {
  import opened JsValues
  import opened Address

  /** A marker line as the booking form writes it: the key, one space, the
      `+` when the marker is signed, then the digits. */
  function Line(mk: Marker, digits: string): (r: string)
    ensures |r| == |mk.key| + 1 + (if mk.signed then 1 else 0) + |digits|
  {
    mk.key + " " + (if mk.signed then "+" else "") + digits
  }

  /** A marker line placed anywhere in a body, followed by a non-digit or by
      the end of the body, is a plainly written marker. */
  lemma LineWritten(a: string, mk: Marker, digits: string, b: string)
    requires IsDigits(digits) && (b != [] ==> !IsDigit(b[0]))
    ensures Written(a + Line(mk, digits) + b, |a|, mk, |a| + |Line(mk, digits)|)
  {
    var s := a + Line(mk, digits) + b;
    var p := |a|;
    var w := p + |mk.key|;
    var e := p + |Line(mk, digits)|;
    var g := w + 1 + (if mk.signed then 1 else 0);
    assert s[p..w] == mk.key;
    assert s[w] == ' ';
    assert mk.signed ==> s[w + 1] == '+';
    assert s[g..e] == digits;
    assert e < |s| ==> s[e] == b[0];
  }

  /** Neither marker line contains the first letter of the other key. */
  lemma LineAvoids(mk: Marker, digits: string, c: char)
    requires IsDigits(digits) && 'A' <= c <= 'Z'
    requires forall i :: 0 <= i < |mk.key| ==> Canonicalize(mk.key[i]) != c
    ensures Avoids(Line(mk, digits) + "\n", c)
  {
    var s := Line(mk, digits) + "\n";
    var g := |mk.key| + 1 + (if mk.signed then 1 else 0);
    assert forall i :: 0 <= i < |mk.key| ==> s[i] == mk.key[i];
    assert forall i :: g <= i < |s| - 1 ==> s[i] == digits[i - g];
  }

  /** A body that opens with a plainly written country-code line, followed
      by a plainly written phone marker with no `p` or `P` before it,
      yields `+`, the country-code digits, then the phone digits; whatever
      follows the phone digits (from `f` on, starting with a non-digit) does
      not matter. */
  lemma CountryCodeThenPhone(s: string, e: nat, p: nat, f: nat)
    requires Written(s, 0, CountryCode, e)
    requires p <= |s| && Avoids(s[..p], 'P')
    requires Written(s, p, Phone, f)
    ensures ExtractPhoneNumber(s) == Some(s[13..e] + s[p + 7..f])
  {
    assert Match(s, CountryCode) == Some(Span(13, e)) by {
      MatchAfter(s, 0, CountryCode, e);
    }
    assert Match(s, Phone) == Some(Span(p + 7, f)) by {
      MatchAfter(s, p, Phone, f);
    }
    ExtractFromMatches(s, 13, e, p + 7, f);
  }

  /** The same with the phone line first: the order of the lines does not
      matter. */
  lemma PhoneThenCountryCode(s: string, e: nat, p: nat, f: nat)
    requires Written(s, 0, Phone, e)
    requires p <= |s| && Avoids(s[..p], 'C')
    requires Written(s, p, CountryCode, f)
    ensures ExtractPhoneNumber(s) == Some(s[p + 13..f] + s[7..e])
  {
    assert Match(s, Phone) == Some(Span(7, e)) by {
      MatchAfter(s, 0, Phone, e);
    }
    assert Match(s, CountryCode) == Some(Span(p + 13, f)) by {
      MatchAfter(s, p, CountryCode, f);
    }
    ExtractFromMatches(s, p + 13, f, 7, e);
  }

  /** The marker lines of the sample booking: country code `+91`, phone
      `9876543210`. */
  const SampleBody := Line(CountryCode, "91") + "\n" + Line(Phone, "9876543210")

  /** The sample's country-code line is plainly written and has no `p`. */
  lemma SampleFirstLine()
    ensures Written(SampleBody, 0, CountryCode, 16)
    ensures Avoids(SampleBody[..17], 'P')
    ensures SampleBody[13..16] == "+91"
  {
    var first := Line(CountryCode, "91");
    var rest := "\n" + Line(Phone, "9876543210");
    assert IsDigits("91");
    assert SampleBody == [] + first + rest;
    LineWritten([], CountryCode, "91", rest);
    assert SampleBody[..17] == first + "\n";
    LineAvoids(CountryCode, "91", 'P');
  }

  /** The sample's phone line is plainly written. */
  lemma SampleSecondLine()
    ensures Written(SampleBody, 17, Phone, |SampleBody|)
    ensures SampleBody[24..|SampleBody|] == "9876543210"
  {
    var first := Line(CountryCode, "91") + "\n";
    assert IsDigits("9876543210");
    assert SampleBody == first + Line(Phone, "9876543210") + [];
    LineWritten(first, Phone, "9876543210", []);
  }

  /** The two captures of the sample spell `+919876543210`. */
  lemma SampleCaptures()
    ensures SampleBody[13..16] + SampleBody[24..|SampleBody|] == "+919876543210"
  {
    SampleFirstLine();
    SampleSecondLine();
    assert "+91" + "9876543210" == "+919876543210";
  }

  /** The sample booking's marker lines give `+919876543210`. */
  lemma SampleBooking()
    ensures ExtractPhoneNumber(SampleBody) == Some("+919876543210")
  {
    SampleFirstLine();
    SampleSecondLine();
    SampleCaptures();
    CountryCodeThenPhone(SampleBody, 16, 17, |SampleBody|);
  }

  /** The sample's number is sent to `919876543210@c.us`. */
  lemma SampleChatId()
    ensures FormatWhatsAppNumber("+919876543210") == "919876543210" + ChatSuffix
  {
    FormatSignedDigits("+919876543210");
  }
}
