/** Text marshalling, and the laws that tie it to the decoder. */
module Marshal {
  import opened Bits
  import opened Errors
  import opened PlaceValue
  import opened Packing
  import opened Base32

  /** Characters of a string of symbols. */
  function Characters(d: seq<nat>): (r: seq<u8>)
    requires Below(d, 32)
    ensures |r| == |d|
  {
    seq(|d|, i requires 0 <= i < |d| => Encode(d[i]))
  }

  /** The canonical text: the 26 base-32 digits of the 128-bit big-endian number. */
  function Text(id: seq<u8>): (r: seq<u8>)
    requires |id| == RAW_SIZE
    ensures |r| == ENCODED_SIZE
  {
    Characters(ToDigits(Num(id, 256), 32, ENCODED_SIZE))
  }

  /** The eight lines that encode five bytes; the source writes them out for bytes 1-5, 6-10 and 11-15. */
  method MarshalGroup(id: seq<u8>, k: nat, dst: array<u8>, at: nat)
    requires k + 5 <= |id| && at + 8 <= dst.Length
    modifies dst
    ensures dst[..at + 8] == old(dst[..at]) + Characters(GroupSymbols(id[k..k + 5]))
    ensures dst[at + 8..] == old(dst[at + 8..])
  {
    hide Encode, And, Or, Shl, Shr;
    EncodeBits(id[k], id[k + 1], id[k + 2], id[k + 3], id[k + 4]);
    dst[at] := Encode(Shr(And(id[k], 248), 3));
    dst[at + 1] := Encode(Or(Shl(And(id[k], 7), 2), Shr(And(id[k + 1], 192), 6)));
    dst[at + 2] := Encode(Shr(And(id[k + 1], 62), 1));
    dst[at + 3] := Encode(Or(Shl(And(id[k + 1], 1), 4), Shr(And(id[k + 2], 240), 4)));
    dst[at + 4] := Encode(Or(Shl(And(id[k + 2], 15), 1), Shr(And(id[k + 3], 128), 7)));
    dst[at + 5] := Encode(Shr(And(id[k + 3], 124), 2));
    dst[at + 6] := Encode(Or(Shl(And(id[k + 3], 3), 3), Shr(And(id[k + 4], 224), 5)));
    dst[at + 7] := Encode(And(id[k + 4], 31));
  }

  /** The first two writes: the three and the five bits of byte 0. */
  method WriteHead(b: u8, dst: array<u8>)
    requires dst.Length == ENCODED_SIZE
    modifies dst
    ensures dst[..2] == Characters([b / 32, b % 32])
  {
    HeadBits(b);
    hide Encode, And, Shr;
    dst[0] := Encode(Shr(And(b, 224), 5));
    dst[1] := Encode(And(b, 31));
  }

  /** The 26 writes of the packer. */
  method WriteText(id: seq<u8>, dst: array<u8>)
    requires |id| == RAW_SIZE && dst.Length == ENCODED_SIZE
    modifies dst
    ensures dst[..] == Characters(PackedSymbols(id))
  {
    hide Encode, GroupSymbols, Characters;
    WriteHead(id[0], dst);
    MarshalGroup(id, 1, dst, 2);
    MarshalGroup(id, 6, dst, 10);
    MarshalGroup(id, 11, dst, 18);
    assert dst[..] == dst[..26];
    PackedCharacters(id);
  }

  /** `marshal_text_to`: the packer writes the canonical text. */
  method MarshalTextTo(id: seq<u8>, dst: array<u8>) returns (r: Result<()>)
    requires |id| == RAW_SIZE
    modifies dst
    ensures dst.Length != ENCODED_SIZE ==> r == Err(BufferSize) && dst[..] == old(dst[..])
    ensures dst.Length == ENCODED_SIZE ==> r == Ok(()) && dst[..] == Text(id)
  {
    if dst.Length != ENCODED_SIZE {
      return Err(BufferSize);
    }
    WriteText(id, dst);
    r := Ok(());
    PackedIsBase32(id);
  }

  lemma {:induction false} PackedCharacters(id: seq<u8>)
    requires |id| == RAW_SIZE
    ensures Characters(PackedSymbols(id)) ==
            Characters([id[0] / 32, id[0] % 32]) + Characters(GroupSymbols(id[1..6]))
            + Characters(GroupSymbols(id[6..11])) + Characters(GroupSymbols(id[11..16]))
  {
  }

  lemma {:induction false} HeadBits(b: u8)
    ensures Shr(And(b, 224), 5) == b / 32 && And(b, 31) == b % 32
  {
    assert Pow(2, 5) == 32 && Pow(2, 3) == 8 && Shl(7, 5) == 224;
    ReadField(b, 5, 3, 32, 8, 224);
    AndLowMask(b, 5);
  }

  // ---------- Round trips ----------

  lemma {:induction false} SymbolsOfCharacters(d: seq<nat>)
    requires Below(d, 32)
    ensures Symbols(Characters(d)) == d && InAlphabet(Characters(d))
  {
    forall i | 0 <= i < |d| ensures Dec(Characters(d)[i]) == d[i] {
      EncodingInvertsDec(d[i]);
    }
  }

  /** Symbols of a text over the alphabet; the overflow guard is about the first of them. */
  lemma {:induction false} AlphabetSymbols(s: seq<u8>)
    requires InAlphabet(s)
    ensures Below(Symbols(s), 32) && Characters(Symbols(s)) == UpperText(s)
    ensures |s| > 0 ==> (s[0] > 55 <==> Symbols(s)[0] > 7)
  {
    forall i | 0 <= i < |s|
      ensures Dec(s[i]) < 32 && Encode(Dec(s[i])) == Upper(s[i]) && (s[i] > 55 <==> Dec(s[i]) > 7)
    {
      DecInvertsEncoding(s[i]);
    }
  }

  /** Decoding the canonical text gives the identifier back, in both modes. */
  lemma {:induction false} ParseInvertsText(id: seq<u8>, strict: bool)
    requires |id| == RAW_SIZE
    ensures ParseSpec(Text(id), strict) == Ok(id)
  {
    var d := PackedSymbols(id);
    PackedIsBase32(id);
    PackedValue(id);
    SymbolsOfCharacters(d);
    AlphabetSymbols(Text(id));
    assert d[0] == id[0] / 32;
    hide UnpackedBytes, PackedSymbols, Characters, Dec;
    UnpackedValue(d);
    NumInjective(UnpackedBytes(d), id, 256);
  }

  /** Strict decoding reads a text as a base-32 number and returns its big-endian bytes. */
  lemma {:induction false} ParsedValue(s: seq<u8>)
    requires ParseSpec(s, true).Ok?
    ensures |ParseSpec(s, true).value| == RAW_SIZE
    ensures Num(ParseSpec(s, true).value, 256) == Num(Symbols(s), 32)
  {
    AlphabetSymbols(s);
    UnpackedValue(Symbols(s));
  }

  /** Re-encoding an accepted text gives that text in upper case. */
  lemma {:induction false} TextOfParsed(s: seq<u8>)
    requires ParseSpec(s, true).Ok?
    ensures |ParseSpec(s, true).value| == RAW_SIZE
    ensures Text(ParseSpec(s, true).value) == UpperText(s)
  {
    ParsedValue(s);
    AlphabetSymbols(s);
    DigitsOfNum(Symbols(s), 32);
  }

  /** Letter case is ignored on every input, valid or not, in both modes. */
  lemma {:induction false} ParseIgnoresCase(s: seq<u8>, strict: bool)
    ensures ParseSpec(UpperText(s), strict) == ParseSpec(s, strict)
  {
    forall i | 0 <= i < |s| ensures Dec(UpperText(s)[i]) == Dec(s[i]) && (UpperText(s)[i] > 55 <==> s[i] > 55) {
      DecInvertsEncoding(s[i]);
    }
    assert Symbols(UpperText(s)) == Symbols(s);
    assert InAlphabet(UpperText(s)) <==> InAlphabet(s) by {
      assert forall i :: 0 <= i < |s| ==> Dec(UpperText(s)[i]) == Dec(s[i]);
    }
  }

  /** Strict decoding accepts exactly the case variants of canonical texts. */
  lemma {:induction false} StrictAcceptance(s: seq<u8>)
    ensures ParseSpec(s, true).Ok? <==> exists id: seq<u8> :: |id| == RAW_SIZE && Text(id) == UpperText(s)
  {
    if ParseSpec(s, true).Ok? {
      TextOfParsed(s);
    }
    forall id: seq<u8> | |id| == RAW_SIZE && Text(id) == UpperText(s) ensures ParseSpec(s, true).Ok? {
      ParseInvertsText(id, true);
      ParseIgnoresCase(s, true);
    }
  }

  /** The one-character overflow guard is exact: it fires when the number needs more than 128 bits. */
  lemma {:induction false} OverflowExactly(s: seq<u8>, strict: bool)
    requires |s| == ENCODED_SIZE && InAlphabet(s)
    ensures ParseSpec(s, strict) == Err(Overflow) <==> Num(Symbols(s), 32) >= TWO_128
  {
    AlphabetSymbols(s);
    var d := Symbols(s);
    hide UnpackedBytes, Symbols, Num, InAlphabet;
    if d[0] < 8 {
      UnpackedValue(d);
      RawBound(UnpackedBytes(d));
    } else {
      SplitFirst(d, 32);
      PowAdd(32, 12, 13);
      assert Pow(32, 12) == 0x1000_0000_0000_0000 && Pow(32, 13) == 0x2_0000_0000_0000_0000;
      MulMonotone(8, d[0], Pow(32, 25));
    }
  }

  // ---------- Order ----------

  /** Identifiers, their texts and their numbers are ordered alike. */
  lemma {:induction false} TextOrder(a: seq<u8>, b: seq<u8>)
    requires |a| == |b| == RAW_SIZE
    ensures LexLess(Text(a), Text(b)) <==> LexLess(a, b)
    ensures LexLess(a, b) <==> Num(a, 256) < Num(b, 256)
    ensures Text(a) == Text(b) <==> a == b
  {
    hide PackedSymbols;
    LexIsNumeric(a, b, 256);
    PackedIsBase32(a);
    PackedIsBase32(b);
    PackedValue(a);
    PackedValue(b);
    LexIsNumeric(PackedSymbols(a), PackedSymbols(b), 32);
    forall i, j | 0 <= i < j < 32 ensures ENCODING[i] < ENCODING[j] { EncodingIncreases(i, j); }
    LexMap(PackedSymbols(a), PackedSymbols(b), Text(a), Text(b), ENCODING);
    ParseInvertsText(a, true);
    ParseInvertsText(b, true);
  }
}
