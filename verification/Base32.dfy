/** The Crockford base-32 codec: alphabet, lookup table, decoder. */
module Base32 {
  import opened Bits
  import opened Errors
  import opened Packing

  const INVALID: u8 := 0xFF

  /** "0123456789ABCDEFGHJKMNPQRSTVWXYZ" in ASCII. */
  const ENCODING: seq<u8> := [
    48, 49, 50, 51, 52, 53, 54, 55, 56, 57, 65, 66, 67, 68, 69, 70,
    71, 72, 74, 75, 77, 78, 80, 81, 82, 83, 84, 86, 87, 88, 89, 90]

  function Upper(c: u8): u8 {
    if 97 <= c <= 122 then c - 32 else c
  }

  function UpperText(s: seq<u8>): (r: seq<u8>)
    ensures |r| == |s|
  {
    seq(|s|, i requires 0 <= i < |s| => Upper(s[i]))
  }

  /** Symbol value of a character, or INVALID: the content of the DEC table. */
  function Dec(c: u8): u8 {
    if 48 <= c <= 57 then c - 48
    else
      var u := Upper(c);
      if 65 <= u <= 72 then u - 55
      else if 74 <= u <= 75 then u - 56
      else if 77 <= u <= 78 then u - 57
      else if 80 <= u <= 84 then u - 58
      else if 86 <= u <= 90 then u - 59
      else INVALID
  }

  /** The alphabet by ranges; I, L, O and U are skipped. */
  function Symbol(d: nat): u8
    requires d < 32
  {
    if d < 10 then 48 + d
    else if d < 18 then 55 + d
    else if d < 20 then 56 + d
    else if d < 22 then 57 + d
    else if d < 27 then 58 + d
    else 59 + d
  }

  /** The character of a symbol. */
  function Encode(d: nat): u8
    requires d < 32
  {
    ENCODING[d]
  }

  lemma EncodingIsSymbol(d: nat)
    requires d < 32
    ensures ENCODING[d] == Symbol(d)
  {
  }

  /** The table inverts the alphabet up to letter case, and marks everything else. */
  lemma DecInvertsEncoding(c: u8)
    ensures Dec(c) < 32 || Dec(c) == INVALID
    ensures Dec(c) < 32 ==> ENCODING[Dec(c)] == Upper(c)
    ensures Dec(c) < 32 <==> exists d :: 0 <= d < 32 && ENCODING[d] == Upper(c)
    ensures Dec(Upper(c)) == Dec(c)
    ensures c > 55 && Dec(c) < 32 ==> Dec(c) > 7
  {
    if Dec(c) < 32 {
      EncodingIsSymbol(Dec(c));
    } else {
      forall d | 0 <= d < 32 ensures ENCODING[d] != Upper(c) { EncodingIsSymbol(d); }
    }
  }

  lemma EncodingInvertsDec(d: nat)
    requires d < 32
    ensures Dec(ENCODING[d]) == d && Upper(ENCODING[d]) == ENCODING[d]
    ensures ENCODING[d] > 55 <==> d > 7
  {
    EncodingIsSymbol(d);
  }

  lemma EncodingIncreases(i: nat, j: nat)
    requires i < j < 32
    ensures ENCODING[i] < ENCODING[j]
  {
    EncodingIsSymbol(i);
    EncodingIsSymbol(j);
  }

  /** The table once the symbols below `d` have been entered. */
  ghost predicate TableUpTo(t: seq<u8>, d: nat) {
    |t| == 256 && forall c: u8 :: t[c] == if Dec(c) < d then Dec(c) else INVALID
  }

  lemma TableDigit(t: seq<u8>, d: nat)
    requires d < 10 && TableUpTo(t, d)
    ensures TableUpTo(t[48 + d := d], d + 1)
  {
  }

  lemma TableLetter(t: seq<u8>, d: nat)
    requires 10 <= d < 32 && TableUpTo(t, d)
    ensures 65 <= ENCODING[d] <= 90
    ensures TableUpTo(t[ENCODING[d] := d][ENCODING[d] + 32 := d], d + 1)
  {
    EncodingIsSymbol(d);
  }

  /** The compile-time construction of DEC. */
  method BuildDec() returns (t: array<u8>)
    ensures fresh(t) && t.Length == 256
    ensures forall c: u8 :: t[c] == Dec(c)
  {
    t := new u8[256](_ => INVALID);
    var i := 0;
    while i < 10
      invariant 0 <= i <= 10 && TableUpTo(t[..], i)
    {
      TableDigit(t[..], i);
      t[48 + i] := i;
      i := i + 1;
    }
    var letters := ENCODING[10..];
    var j := 0;
    while j < |letters|
      invariant 0 <= j <= 22 && TableUpTo(t[..], 10 + j)
    {
      TableLetter(t[..], 10 + j);
      var upper := letters[j];
      var lower := upper + 32;
      t[upper] := 10 + j;
      t[lower] := 10 + j;
      j := j + 1;
    }
    forall c: u8 ensures t[c] == Dec(c) {
      DecInvertsEncoding(c);
      assert t[..][c] == t[c];
    }
  }

  // ---------- Decoding ----------

  /** The looked-up symbols of a text. */
  function Symbols(text: seq<u8>): (r: seq<u8>)
    ensures |r| == |text|
  {
    seq(|text|, i requires 0 <= i < |text| => Dec(text[i]))
  }

  ghost predicate InAlphabet(text: seq<u8>) {
    forall i :: 0 <= i < |text| ==> Dec(text[i]) != INVALID
  }

  /** What `parse` reports, for every text and both modes. */
  ghost function ParseSpec(text: seq<u8>, strict: bool): Result<seq<u8>> {
    if |text| != ENCODED_SIZE then Err(DataSize)
    else if strict && !InAlphabet(text) then Err(InvalidCharacters)
    else if text[0] > 55 then Err(Overflow)
    else Ok(UnpackedBytes(Symbols(text)))
  }

  /** Every character is one of the alphabet, in either case. */
  ghost predicate Spelled(text: seq<u8>) {
    forall i :: 0 <= i < |text| ==> Upper(text[i]) in ENCODING
  }

  lemma {:induction false} SpelledInAlphabet(text: seq<u8>)
    ensures Spelled(text) <==> InAlphabet(text)
  {
    forall i | 0 <= i < |text| ensures Upper(text[i]) in ENCODING <==> Dec(text[i]) != INVALID {
      DecInvertsEncoding(text[i]);
    }
  }

  /** The report for every text in both modes: the length, then in strict mode the alphabet, then the first character. */
  lemma {:induction false} ParseReport(text: seq<u8>, strict: bool)
    ensures var r := ParseSpec(text, strict);
            && (r == Err(DataSize) <==> |text| != 26)
            && (r == Err(InvalidCharacters) <==> |text| == 26 && strict && !Spelled(text))
            && (r == Err(Overflow) <==> |text| == 26 && (strict ==> Spelled(text)) && text[0] > 55)
            && (r.Ok? <==> |text| == 26 && (strict ==> Spelled(text)) && text[0] <= 55)
  {
    SpelledInAlphabet(text);
    hide Spelled, InAlphabet, UnpackedBytes;
  }

  /** Lax mode reads what strict mode accepts as strict mode does. */
  lemma {:induction false} LaxExtendsStrict(text: seq<u8>)
    ensures ParseSpec(text, true).Ok? ==> ParseSpec(text, false) == ParseSpec(text, true)
    ensures ParseSpec(text, true) != ParseSpec(text, false) ==> ParseSpec(text, true) == Err(InvalidCharacters)
  {
  }

  /** The five lines that decode eight characters; the source writes them out for 2-9, 10-17 and 18-25. */
  method ParseGroup(v: seq<u8>, k: nat, id: array<u8>, at: nat)
    requires k + 8 <= |v| && at + 5 <= id.Length
    modifies id
    ensures id[..at + 5] == old(id[..at]) + UngroupBytes(Symbols(v)[k..k + 8])
    ensures id[at + 5..] == old(id[at + 5..])
  {
    hide Or8, Shl8, Shr, Dec;
    id[at] := Or8(Shl8(Dec(v[k]), 3), Shr(Dec(v[k + 1]), 2));
    id[at + 1] := Or8(Or8(Shl8(Dec(v[k + 1]), 6), Shl8(Dec(v[k + 2]), 1)), Shr(Dec(v[k + 3]), 4));
    id[at + 2] := Or8(Shl8(Dec(v[k + 3]), 4), Shr(Dec(v[k + 4]), 1));
    id[at + 3] := Or8(Or8(Shl8(Dec(v[k + 4]), 7), Shl8(Dec(v[k + 5]), 2)), Shr(Dec(v[k + 6]), 3));
    id[at + 4] := Or8(Shl8(Dec(v[k + 6]), 5), Dec(v[k + 7]));
  }

  /** The 16 writes of the decoder. */
  method WriteBytes(v: seq<u8>, id: array<u8>)
    requires |v| == ENCODED_SIZE && id.Length == RAW_SIZE
    modifies id
    ensures id[..] == UnpackedBytes(Symbols(v))
  {
    hide Or8, Shl8, Dec, UngroupBytes;
    id[0] := Or8(Shl8(Dec(v[0]), 5), Dec(v[1]));
    assert id[..1] == [Or8(Shl8(Symbols(v)[0], 5), Symbols(v)[1])];
    ParseGroup(v, 2, id, 1);
    ParseGroup(v, 10, id, 6);
    ParseGroup(v, 18, id, 11);
    assert id[..] == id[..16];
  }

  /** `parse`: the strict scan, the overflow guard on the first character, the unrolled decoder. */
  method Parse(text: seq<u8>, strict: bool, id: array<u8>) returns (r: Result<()>)
    requires id.Length == RAW_SIZE
    modifies id
    ensures r == Err(DataSize) <==> |text| != 26
    ensures r == Err(InvalidCharacters) <==> |text| == 26 && strict && !Spelled(text)
    ensures r == Err(Overflow) <==> |text| == 26 && (strict ==> Spelled(text)) && text[0] > 55
    ensures r == Ok(()) <==> |text| == 26 && (strict ==> Spelled(text)) && text[0] <= 55
    ensures ParseSpec(text, strict).Ok? ==> r == Ok(()) && id[..] == ParseSpec(text, strict).value
    ensures ParseSpec(text, strict).Err? ==> r == Err(ParseSpec(text, strict).error) && id[..] == old(id[..])
  {
    SpelledInAlphabet(text);
    hide Spelled, UnpackedBytes;
    if |text| != ENCODED_SIZE {
      return Err(DataSize);
    }
    if strict {
      var k := 0;
      while k < |text|
        invariant 0 <= k <= |text|
        invariant forall i :: 0 <= i < k ==> Dec(text[i]) != INVALID
      {
        if Dec(text[k]) == INVALID {
          return Err(InvalidCharacters);
        }
        k := k + 1;
      }
    }
    if text[0] > 55 {
      return Err(Overflow);
    }
    WriteBytes(text, id);
    r := Ok(());
  }
}
