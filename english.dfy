/** The character whitelist that decides whether a fragment looks like English text. */
module English {

  /** `isEnglishASCIIChar`: a lower-case letter, an upper-case letter, or one
      of space, comma, period, apostrophe, colon, the two parentheses and hyphen. */
  function IsEnglishASCIIChar(c: bv8): (r: bool)
    ensures (0x61 <= c <= 0x7A || 0x41 <= c <= 0x5A) ==> r
    ensures r ==> 0x20 <= c < 0x7F && !(0x30 <= c <= 0x39)
  {
    if 0x61 <= c <= 0x7A then true        // 'a' .. 'z'
    else if 0x41 <= c <= 0x5A then true   // 'A' .. 'Z'
    else (c == 0x20 || c == 0x2C || c == 0x2E || c == 0x27    // ' ' ',' '.' '\''
          || c == 0x3A || c == 0x29 || c == 0x28 || c == 0x2D) // ':' ')' '(' '-'
  }

  /** `isEnglishASCII`: the scan returns false at the first byte outside
      the whitelist and true when there is none, so it accepts exactly the
      fragments whose every byte is on the whitelist. */
  function IsEnglishASCII(b: seq<bv8>): (r: bool)
    ensures |b| == 0 ==> r
  {
    forall k :: 0 <= k < |b| ==> IsEnglishASCIIChar(b[k])
  }

  /** The scan itself: it stops at the first byte off the whitelist. */
  method ScanEnglishASCII(b: seq<bv8>) returns (ok: bool)
    ensures ok == IsEnglishASCII(b)
  {
    var k := 0;
    while k < |b|
      invariant 0 <= k <= |b|
      invariant forall m :: 0 <= m < k ==> IsEnglishASCIIChar(b[m])
    {
      if !IsEnglishASCIIChar(b[k]) {
        return false;
      }
      k := k + 1;
    }
    return true;
  }

  /** Non-ASCII bytes (0x80 and above) are never accepted. */
  lemma HighBytesRejected(c: bv8)
    requires c >= 0x80
    ensures !IsEnglishASCIIChar(c)
  {
  }

  /** Digits are not on the whitelist. */
  lemma DigitsRejected(c: bv8)
    requires '0' as bv8 <= c <= '9' as bv8
    ensures !IsEnglishASCIIChar(c)
  {
  }

  /** Control characters (below space, and DEL) are not on the whitelist. */
  lemma ControlBytesRejected(c: bv8)
    requires c < ' ' as bv8 || c == 0x7F
    ensures !IsEnglishASCIIChar(c)
  {
  }

  /** Printable punctuation other than the seven listed marks is rejected:
      every byte from 0x21 to 0x2F, 0x3A to 0x40, 0x5B to 0x60 and 0x7B to
      0x7E except comma, period, apostrophe, colon, the two parentheses and
      hyphen. */
  lemma OtherPunctuationRejected(c: bv8)
    requires 0x21 <= c <= 0x2F || 0x3A <= c <= 0x40 || 0x5B <= c <= 0x60 || 0x7B <= c <= 0x7E
    requires c != ',' as bv8 && c != '.' as bv8 && c != '\'' as bv8 && c != ':' as bv8
    requires c != ')' as bv8 && c != '(' as bv8 && c != '-' as bv8
    ensures !IsEnglishASCIIChar(c)
  {
  }

  /** One rejected byte anywhere rejects the whole fragment; the empty fragment passes. */
  lemma OneBadByteRejects(b: seq<bv8>, k: nat)
    requires k < |b| && !IsEnglishASCIIChar(b[k])
    ensures !IsEnglishASCII(b)
    ensures IsEnglishASCII([])
  {
  }
}
