/** The language-specific data area reader of gcc_personality_v0.c: ULEB128
    numbers, encoded pointers, and the walk over the call-site table. */
module Lsda {
  import opened Arithmetic
  import opened Bits
  import opened Bytes
  import opened Options

  // ---- unsigned LEB128 (section 7.6 of the DWARF 5 standard) ----

  function Encode(v: nat): (bytes: seq<byte>)
    ensures |bytes| > 0
  {
    if v < 128 then [v] else [128 + v % 128] + Encode(v / 128)
  }

  datatype Decoded = Decoded(value: nat, length: nat)

  /** The number at the front of the data and how many bytes it takes. */
  function Decode(data: seq<byte>): Option<Decoded> {
    if data == [] then None
    else if data[0] < 128 then Some(Decoded(data[0], 1))
    else
      match Decode(data[1..])
      case None => None
      case Some(d) => Some(Decoded(data[0] - 128 + 128 * d.value, d.length + 1))
  }

  lemma {:induction false} DecodeEncode(v: nat, rest: seq<byte>)
    ensures Decode(Encode(v) + rest) == Some(Decoded(v, |Encode(v)|))
  {
    var data := Encode(v) + rest;
    if v >= 128 {
      assert data[1..] == Encode(v / 128) + rest;
      DecodeEncode(v / 128, rest);
    }
  }

  lemma {:induction false} EncodeLength(v: nat)
    requires v < 0x8000_0000
    ensures |Encode(v)| <= 5
  {
    if v >= 128 {
      assert Encode(v) == [128 + v % 128] + Encode(v / 128);
      var w := v / 128;
      if w >= 128 {
        assert Encode(w) == [128 + w % 128] + Encode(w / 128);
        var x := w / 128;
        if x >= 128 {
          assert Encode(x) == [128 + x % 128] + Encode(x / 128);
          var y := x / 128;
          if y >= 128 {
            assert Encode(y) == [128 + y % 128] + Encode(y / 128);
            assert y / 128 < 128;
          }
        }
      }
    }
  }

  /** There is no number exactly when every byte has its high bit. */
  lemma {:induction false} DecodeFails(data: seq<byte>)
    ensures Decode(data).None? <==> forall i :: 0 <= i < |data| ==> data[i] >= 128
  {
    if data != [] && data[0] >= 128 {
      DecodeFails(data[1..]);
      assert forall i :: 0 < i < |data| ==> data[i] == data[1..][i - 1];
    }
  }

  /** The length of a number: the byte that ends it is the first without a high bit. */
  lemma {:induction false} DecodeEnd(data: seq<byte>)
    requires Decode(data).Some?
    ensures var n := Decode(data).value.length; 0 < n <= |data| && data[n - 1] < 128
    ensures forall i :: 0 <= i < Decode(data).value.length - 1 ==> data[i] >= 128
  {
    if data[0] >= 128 {
      DecodeEnd(data[1..]);
      assert forall i :: 0 < i < |data| ==> data[i] == data[1..][i - 1];
    }
  }

  /** Its value: each group of seven bits is the low bits of a byte, the first byte's
      being the lowest. */
  lemma {:induction false} DecodeGroups(data: seq<byte>)
    requires Decode(data).Some?
    ensures var d := Decode(data).value;
      && 0 < d.length <= |data| && d.value < Pow2(7 * d.length)
      && forall i :: 0 <= i < d.length ==> d.value / Pow2(7 * i) % 128 == data[i] % 128
  {
    if data[0] >= 128 {
      hide Pow2;
      DecodeGroups(data[1..]);
      var d := Decode(data[1..]).value;
      GroupsContinue(data, d.value, d.length, data[0] - 128 + 128 * d.value);
    } else {
      FirstGroup(data[0]);
    }
  }

  /** One byte more in front. */
  lemma GroupsContinue(data: seq<byte>, rest: nat, length: nat, value: nat)
    requires 0 < length < |data| && data[0] >= 128 && rest < Pow2(7 * length) && value == data[0] - 128 + 128 * rest
    requires forall i :: 0 <= i < length ==> rest / Pow2(7 * i) % 128 == data[1..][i] % 128
    ensures value < Pow2(7 * (length + 1))
    ensures forall i :: 0 <= i < length + 1 ==> value / Pow2(7 * i) % 128 == data[i] % 128
  {
    hide Pow2;
    NextPower(length);
    forall i | 0 <= i < length + 1 ensures value / Pow2(7 * i) % 128 == data[i] % 128 {
      GroupContinues(data, rest, length, value, i);
    }
  }

  lemma GroupContinues(data: seq<byte>, rest: nat, length: nat, value: nat, i: nat)
    requires length < |data| && data[0] >= 128 && i < length + 1 && value == data[0] - 128 + 128 * rest
    requires i > 0 ==> rest / Pow2(7 * (i - 1)) % 128 == data[1..][i - 1] % 128
    ensures value / Pow2(7 * i) % 128 == data[i] % 128
  {
    hide Pow2;
    GroupOf(value, data[0] - 128, rest, i);
    if i > 0 {
      assert data[i] == data[1..][i - 1];
    }
  }

  lemma FirstGroup(x: nat)
    requires x < 128
    ensures x < Pow2(7 * 1) && x / Pow2(7 * 0) % 128 == x
  {
    assert Pow2(7) == 128 && Pow2(0) == 1;
  }

  lemma GroupOf(value: nat, low: nat, rest: nat, i: nat)
    requires low < 128 && value == low + 128 * rest
    ensures i == 0 ==> value / Pow2(7 * i) % 128 == low
    ensures i > 0 ==> value / Pow2(7 * i) % 128 == rest / Pow2(7 * (i - 1)) % 128
  {
    DivModUnique(value, 128, rest, low);
    if i == 0 {
      assert Pow2(0) == 1;
    } else {
      NextPower(i - 1);
      hide Pow2;
      DivideTwice(value, 128, Pow2(7 * (i - 1)));
    }
  }

  /** A number and the position after it; Undefined when C gives the read no
      meaning (past the data, or an int shift that overflows); Abort on an
      encoding the source rejects. */
  datatype Read = Value(v: nat, next: nat) | Undefined | Abort

  /** What readULEB128 delivers: five bytes and 31 bits are its limits. */
  function UlebAt(data: seq<byte>, start: nat): Read {
    if start > |data| then Undefined
    else
      match Decode(data[start..])
      case None => Undefined
      case Some(d) => if d.length <= 5 && d.value < 0x8000_0000 then Value(d.value, start + d.length) else Undefined
  }

  /** The number at start, given the k groups before p and what stands at p. */
  ghost predicate Partial(data: seq<byte>, start: nat, p: nat, result: nat) {
    && start <= p <= |data| && result < Pow2(7 * (p - start))
    && match Decode(data[p..])
       case None => Decode(data[start..]) == None
       case Some(d) => Decode(data[start..]) == Some(Decoded(result + d.value * Pow2(7 * (p - start)), p - start + d.length))
  }

  lemma PartialStart(data: seq<byte>, start: nat)
    requires start <= |data|
    ensures Partial(data, start, start, 0)
  {
    assert Pow2(0) == 1;
  }

  lemma CombineGroups(g: nat, v: nat, p: nat)
    ensures (g + 128 * v) * p == g * p + v * (128 * p)
  {
    MulDistribute(g, 128 * v, p);
    MulAssoc(v, 128, p);
  }

  lemma DecodeContinues(data: seq<byte>, p: nat)
    requires p < |data| && data[p] >= 128
    ensures match Decode(data[p + 1..])
      case None => Decode(data[p..]) == None
      case Some(d) => Decode(data[p..]) == Some(Decoded(data[p] - 128 + 128 * d.value, d.length + 1))
  {
    assert data[p..][1..] == data[p + 1..];
  }

  lemma DecodeEnds(data: seq<byte>, p: nat)
    requires p < |data| && data[p] < 128
    ensures Decode(data[p..]) == Some(Decoded(data[p], 1))
  {}

  lemma NextPower(n: nat)
    ensures Pow2(7 * (n + 1)) == 128 * Pow2(7 * n)
  {
    Pow2Add(7, 7 * n);
    SmallPowers();
  }

  lemma PartialStep(data: seq<byte>, start: nat, p: nat, result: nat, next: nat)
    requires Partial(data, start, p, result) && p < |data| && data[p] >= 128
    requires next == result + (data[p] - 128) * Pow2(7 * (p - start))
    ensures Partial(data, start, p + 1, next)
  {
    hide Decode, Pow2;
    var base, g := Pow2(7 * (p - start)), data[p] - 128;
    NextPower(p - start);
    DigitsBound(g, 128, result, base);
    DecodeContinues(data, p);
    match Decode(data[p + 1..])
    case None =>
    case Some(d) => CombineGroups(g, d.value, base);
  }

  lemma PartialEnd(data: seq<byte>, start: nat, p: nat, result: nat, whole: nat)
    requires Partial(data, start, p, result) && p < |data| && data[p] < 128
    requires whole == result + data[p] * Pow2(7 * (p - start))
    ensures Decode(data[start..]) == Some(Decoded(whole, p - start + 1))
  {
    hide Decode, Pow2;
    DecodeEnds(data, p);
  }

  /** A shift that stays inside an int is exact, and its bits are new. */
  lemma GroupFits(group: nat, k: nat, result: nat, term: nat)
    requires group < 128 && k <= 4 && result < Pow2(7 * k) && term == group * Pow2(7 * k)
    ensures Or(result, term) == result + term
    ensures term >= 0x8000_0000 ==> k == 4 && group >= 8
    ensures term < 0x8000_0000 ==> result + term < 0x8000_0000
  {
    hide Pow2, Or;
    OrDisjoint(group, result, 7 * k);
    SmallPowers();
    GroupBounds(group, Pow2(7 * k), result);
  }

  lemma GroupBounds(group: nat, base: nat, result: nat)
    requires group < 128 && result < base
    requires base == 1 || base == 0x80 || base == 0x4000 || base == 0x20_0000 || base == 0x1000_0000
    ensures group * base >= 0x8000_0000 ==> base == 0x1000_0000 && group >= 8
    ensures group * base < 0x8000_0000 ==> result + group * base < 0x8000_0000
  {
    if base == 1 {} else if base == 0x80 {} else if base == 0x4000 {} else if base == 0x20_0000 {} else {}
  }

  lemma SmallPowers()
    ensures Pow2(0) == 1 && Pow2(7) == 0x80 && Pow2(14) == 0x4000 && Pow2(21) == 0x20_0000 && Pow2(28) == 0x1000_0000
  {
    assert Pow2(7) == 0x80;
    Pow2Add(7, 7);
    Pow2Add(14, 7);
    Pow2Add(14, 14);
  }

  lemma TooLong(data: seq<byte>, start: nat, p: nat, result: nat)
    requires Partial(data, start, p, result) && p - start >= 5
    ensures UlebAt(data, start) == Undefined
  {
    hide Pow2;
    match Decode(data[p..])
    case None =>
    case Some(d) => DecodeLength(data[p..]);
  }

  lemma {:induction false} DecodeLength(data: seq<byte>)
    ensures Decode(data).Some? ==> 0 < Decode(data).value.length <= |data|
  {
    if data != [] && data[0] >= 128 {
      DecodeLength(data[1..]);
    }
  }

  lemma TooLarge(data: seq<byte>, start: nat, p: nat, result: nat)
    requires Partial(data, start, p, result) && p < |data| && p - start == 4 && data[p] % 128 >= 8
    ensures UlebAt(data, start) == Undefined
  {
    SmallPowers();
    hide Decode, Pow2;
    if data[p] >= 128 {
      DecodeContinues(data, p);
    } else {
      DecodeEnds(data, p);
    }
  }

  /** readULEB128 on the bytes from start on. */
  method ReadUleb128(data: seq<byte>, start: nat) returns (r: Read)
    requires start <= |data|
    ensures r == UlebAt(data, start)
  {
    hide Pow2, Or, Partial, Decode, UlebAt;
    PartialStart(data, start);
    var result, shift, p := 0, 0, start;
    while true
      invariant start <= p <= |data| && shift == 7 * (p - start) && Partial(data, start, p, result)
      decreases |data| - p
    {
      PartialBound(data, start, p, result);
      if p == |data| {
        RunsOut(data, start, p, result);
        return Undefined;
      }
      var next := data[p];
      if shift >= 32 {
        TooLong(data, start, p, result);
        return Undefined;
      }
      var term := next % 128 * Pow2(shift);
      GroupFits(next % 128, p - start, result, term);
      if term >= 0x8000_0000 {
        TooLarge(data, start, p, result);
        return Undefined;
      }
      if next < 128 {
        PartialEnd(data, start, p, result, Or(result, term));
        UlebFits(data, start, Or(result, term), p - start + 1);
        return Value(Or(result, term), p + 1);
      }
      PartialStep(data, start, p, result, Or(result, term));
      result, shift, p := Or(result, term), shift + 7, p + 1;
    }
  }

  lemma UlebFits(data: seq<byte>, start: nat, whole: nat, length: nat)
    requires start <= |data| && Decode(data[start..]) == Some(Decoded(whole, length)) && length <= 5 && whole < 0x8000_0000
    ensures UlebAt(data, start) == Value(whole, start + length)
  {}

  lemma PartialBound(data: seq<byte>, start: nat, p: nat, result: nat)
    requires Partial(data, start, p, result)
    ensures result < Pow2(7 * (p - start))
  {}

  lemma RunsOut(data: seq<byte>, start: nat, p: nat, result: nat)
    requires Partial(data, start, p, result) && p == |data|
    ensures UlebAt(data, start) == Undefined
  {
    assert data[p..] == [];
  }

  /** Reading inverts encoding exactly below 2^31, and consumes the encoded bytes. */
  lemma UlebRoundTrip(before: seq<byte>, v: nat, rest: seq<byte>)
    ensures v < 0x8000_0000 ==> UlebAt(before + Encode(v) + rest, |before|) == Value(v, |before| + |Encode(v)|)
    ensures v >= 0x8000_0000 ==> UlebAt(before + Encode(v) + rest, |before|) == Undefined
  {
    assert (before + Encode(v) + rest)[|before|..] == Encode(v) + rest;
    DecodeEncode(v, rest);
    if v < 0x8000_0000 {
      EncodeLength(v);
    }
  }

  // ---- encoded pointers ----

  const DW_EH_PE_OMIT: nat := 0xff
  const DW_EH_PE_ULEB128: nat := 0x01
  const DW_EH_PE_PCREL: nat := 0x10
  const DW_EH_PE_INDIRECT: nat := 0x80

  /** The width in bytes of a fixed-size format, and whether it is signed. */
  function FixedSize(format: nat): Option<nat> {
    if format == 0x00 || format == 0x04 || format == 0x0c then Some(8)
    else if format == 0x02 || format == 0x0a then Some(2)
    else if format == 0x03 || format == 0x0b then Some(4)
    else None
  }

  /** A value widened to uintptr_t. */
  function Widened(format: nat, size: nat, x: nat): nat
    requires size > 0
  {
    if format >= 0x0a then Wrap(64, Signed(8 * size, x)) else x
  }

  /** The first switch of readEncodedPointer: the value and the position after it. */
  function FormatAt(data: seq<byte>, start: nat, format: nat): Read {
    if format == DW_EH_PE_ULEB128 then UlebAt(data, start)
    else
      match FixedSize(format)
      case None => Abort
      case Some(n) =>
        if start + n <= |data| then Value(Widened(format, n, Number(data[start..start + n])), start + n) else Undefined
  }

  /** Where the data lies, and the pointers stored at the addresses that can be
      read through. */
  datatype Image = Image(base: nat, words: map<nat, nat>)

  predicate Relative(encoding: nat) { encoding / 16 % 8 == DW_EH_PE_PCREL / 16 }

  predicate Indirect(encoding: nat) { encoding / DW_EH_PE_INDIRECT % 2 == 1 }

  /** readEncodedPointer: value, relative offset, indirection. */
  function PointerAt(data: seq<byte>, start: nat, encoding: nat, image: Image): Read {
    if encoding == DW_EH_PE_OMIT then Value(0, start)
    else
      match FormatAt(data, start, encoding % 16)
      case Value(v, next) =>
        if encoding / 16 % 8 > 1 then Abort
        else
          var address := if Relative(encoding) then Wrap(64, v + image.base + start) else v;
          if !Indirect(encoding) then Value(address, next)
          else if address in image.words then Value(image.words[address], next)
          else Undefined
      case other => other
  }

  // ---- the encodings one by one ----

  /** A field of size bytes, low byte first. */
  lemma FieldAt(before: seq<byte>, size: nat, x: nat, rest: seq<byte>)
    ensures var data := before + Digits(size, x) + rest;
      |before| + size <= |data| && Number(data[|before|..|before| + size]) == x % Radix(size)
  {
    var data := before + Digits(size, x) + rest;
    assert data[|before|..|before| + size] == Digits(size, x);
    NumberOfDigits(size, x);
  }

  /** The unsigned formats: two, four or eight bytes, and the 31 bits that
      readULEB128 can deliver. */
  lemma UnsignedFormats(before: seq<byte>, x: nat, rest: seq<byte>, image: Image)
    ensures x < 0x1_0000_0000_0000_0000 ==>
      PointerAt(before + Digits(8, x) + rest, |before|, 0x00, image) == Value(x, |before| + 8)
    ensures x < 0x8000_0000 ==>
      PointerAt(before + Encode(x) + rest, |before|, 0x01, image) == Value(x, |before| + |Encode(x)|)
    ensures x < 0x1_0000 ==>
      PointerAt(before + Digits(2, x) + rest, |before|, 0x02, image) == Value(x, |before| + 2)
    ensures x < 0x1_0000_0000 ==>
      PointerAt(before + Digits(4, x) + rest, |before|, 0x03, image) == Value(x, |before| + 4)
    ensures x < 0x1_0000_0000_0000_0000 ==>
      PointerAt(before + Digits(8, x) + rest, |before|, 0x04, image) == Value(x, |before| + 8)
  {
    hide *;
    if x < 0x1_0000_0000_0000_0000 {
      UnsignedField(before, 8, 0x1_0000_0000_0000_0000, x, 0x00, rest, image);
      UnsignedField(before, 8, 0x1_0000_0000_0000_0000, x, 0x04, rest, image);
    }
    if x < 0x8000_0000 {
      UlebRoundTrip(before, x, rest);
      UlebFormat(before + Encode(x) + rest, |before|, image);
    }
    if x < 0x1_0000 {
      UnsignedField(before, 2, 0x1_0000, x, 0x02, rest, image);
    }
    if x < 0x1_0000_0000 {
      UnsignedField(before, 4, 0x1_0000_0000, x, 0x03, rest, image);
    }
  }

  lemma UlebFormat(data: seq<byte>, start: nat, image: Image)
    ensures PointerAt(data, start, 0x01, image) == UlebAt(data, start)
  {
    hide UlebAt;
  }

  /** A fixed number of bytes, not signed. */
  lemma UnsignedField(before: seq<byte>, size: nat, radix: nat, x: nat, format: nat, rest: seq<byte>, image: Image)
    requires (format, size) == (0x00, 8) || (format, size) == (0x02, 2) || (format, size) == (0x03, 4) || (format, size) == (0x04, 8)
    requires (size, radix) in {(2, 0x1_0000), (4, 0x1_0000_0000), (8, 0x1_0000_0000_0000_0000)} && x < radix
    ensures PointerAt(before + Digits(size, x) + rest, |before|, format, image) == Value(x, |before| + size)
  {
    hide UlebAt, Number, Digits, Pow2;
    Pow2Values();
    FieldAt(before, size, x, rest);
  }

  /** The signed formats, widened to 64 bits. */
  lemma SignedFormats(before: seq<byte>, x: int, rest: seq<byte>, image: Image)
    ensures -0x8000 <= x < 0x8000 ==>
      PointerAt(before + Digits(2, x % 0x1_0000) + rest, |before|, 0x0a, image)
      == Value(x % 0x1_0000_0000_0000_0000, |before| + 2)
    ensures -0x8000_0000 <= x < 0x8000_0000 ==>
      PointerAt(before + Digits(4, x % 0x1_0000_0000) + rest, |before|, 0x0b, image)
      == Value(x % 0x1_0000_0000_0000_0000, |before| + 4)
    ensures -0x8000_0000_0000_0000 <= x < 0x8000_0000_0000_0000 ==>
      PointerAt(before + Digits(8, x % 0x1_0000_0000_0000_0000) + rest, |before|, 0x0c, image)
      == Value(x % 0x1_0000_0000_0000_0000, |before| + 8)
  {
    hide *;
    if -0x8000 <= x < 0x8000 {
      HalfWord(before, x, rest, image);
    }
    if -0x8000_0000 <= x < 0x8000_0000 {
      WholeWord(before, x, rest, image);
    }
    if -0x8000_0000_0000_0000 <= x < 0x8000_0000_0000_0000 {
      DoubleWord(before, x, rest, image);
    }
  }

  /** A pattern of w bits, read as signed and widened. */
  lemma WidenedPattern(w: nat, x: int, half: nat, radix: nat)
    requires 0 < w <= 64 && half == Pow2(w - 1) && radix == Pow2(w) && 0 - half <= x < half
    ensures radix == 2 * half && 0 <= x % radix < radix
    ensures Wrap(64, Signed(w, x % radix)) == x % Pow2(64)
  {
    Pow2AsDouble(w);
    hide Pow2;
    DivModUnique(x, radix, if x < 0 then -1 else 0, if x < 0 then x + radix else x);
  }

  lemma HalfWord(before: seq<byte>, x: int, rest: seq<byte>, image: Image)
    requires -0x8000 <= x < 0x8000
    ensures PointerAt(before + Digits(2, x % 0x1_0000) + rest, |before|, 0x0a, image)
         == Value(x % 0x1_0000_0000_0000_0000, |before| + 2)
  {
    hide Number, Digits, Pow2, Signed, Wrap;
    Pow2Values();
    Pow2AsDouble(16);
    WidenedPattern(16, x, 0x8000, 0x1_0000);
    FieldAt(before, 2, x % 0x1_0000, rest);
    DivModUnique(x % 0x1_0000, Pow2(16), 0, x % 0x1_0000);
  }

  lemma WholeWord(before: seq<byte>, x: int, rest: seq<byte>, image: Image)
    requires -0x8000_0000 <= x < 0x8000_0000
    ensures PointerAt(before + Digits(4, x % 0x1_0000_0000) + rest, |before|, 0x0b, image)
         == Value(x % 0x1_0000_0000_0000_0000, |before| + 4)
  {
    hide Number, Digits, Pow2, Signed, Wrap;
    Pow2Values();
    WidenedPattern(32, x, 0x8000_0000, 0x1_0000_0000);
    FieldAt(before, 4, x % 0x1_0000_0000, rest);
    DivModUnique(x % 0x1_0000_0000, Pow2(32), 0, x % 0x1_0000_0000);
  }

  lemma DoubleWord(before: seq<byte>, x: int, rest: seq<byte>, image: Image)
    requires -0x8000_0000_0000_0000 <= x < 0x8000_0000_0000_0000
    ensures PointerAt(before + Digits(8, x % 0x1_0000_0000_0000_0000) + rest, |before|, 0x0c, image)
         == Value(x % 0x1_0000_0000_0000_0000, |before| + 8)
  {
    hide Number, Digits, Pow2, Signed, Wrap;
    Pow2Values();
    WidenedPattern(64, x, 0x8000_0000_0000_0000, 0x1_0000_0000_0000_0000);
    FieldAt(before, 8, x % 0x1_0000_0000_0000_0000, rest);
    DivModUnique(x % 0x1_0000_0000_0000_0000, Pow2(64), 0, x % 0x1_0000_0000_0000_0000);
  }

  /** Fields that end after the data, and formats the source aborts on. */
  lemma OtherFormats(data: seq<byte>, start: nat, image: Image)
    ensures start + 2 > |data| ==> PointerAt(data, start, 0x02, image) == PointerAt(data, start, 0x0a, image) == Undefined
    ensures start + 4 > |data| ==> PointerAt(data, start, 0x03, image) == PointerAt(data, start, 0x0b, image) == Undefined
    ensures start + 8 > |data| ==>
      PointerAt(data, start, 0x00, image) == PointerAt(data, start, 0x04, image) == PointerAt(data, start, 0x0c, image) == Undefined
    ensures forall format :: 0x05 <= format <= 0x09 || 0x0d <= format <= 0x0f ==> PointerAt(data, start, format, image) == Abort
    ensures PointerAt(data, start, 0xff, image) == Value(0, start)
  {
    hide Number, Pow2, UlebAt;
  }

  /** What the upper half of an encoding makes of the value its lower half stands for:
      the place of the field is added, or the pointer stored at the address is taken,
      or both in this order; every other mode aborts. */
  lemma EncodingModes(data: seq<byte>, start: nat, format: nat, image: Image)
    requires format < 0x10
    ensures match PointerAt(data, start, format, image)
      case Value(v, next) =>
        var there := (v + image.base + start) % 0x1_0000_0000_0000_0000;
        && PointerAt(data, start, 0x10 + format, image) == Value(there, next)
        && PointerAt(data, start, 0x80 + format, image)
           == (if v in image.words then Value(image.words[v], next) else Undefined)
        && PointerAt(data, start, 0x90 + format, image)
           == (if there in image.words then Value(image.words[there], next) else Undefined)
      case _ => true
  {
    hide FormatAt, Pow2;
    Pow2Values();
  }

  lemma OtherModes(data: seq<byte>, start: nat, encoding: nat, image: Image)
    requires encoding < 0xff
    ensures PointerAt(data, start, encoding % 0x10, image).Value? && 0x20 <= encoding % 0x80 ==>
      PointerAt(data, start, encoding, image) == Abort
    ensures !PointerAt(data, start, encoding % 0x10, image).Value? ==>
      PointerAt(data, start, encoding, image) == PointerAt(data, start, encoding % 0x10, image)
  {
    hide FormatAt, Pow2;
  }

  // ---- the call-site table ----

  datatype CallSite = CallSite(start: nat, length: nat, landingPad: nat)

  datatype Found = Install(landingPad: nat) | ContinueUnwind | Broken

  predicate Covers(e: CallSite, pcOffset: nat) {
    e.landingPad != 0 && e.start <= pcOffset < Wrap(64, e.start + e.length)
  }

  datatype Entry = Entry(site: CallSite, next: nat) | Unreadable

  /** One turn of the loop: three pointers and an action to skip. */
  function EntryAt(data: seq<byte>, p: nat, encoding: nat, image: Image): Entry {
    match PointerAt(data, p, encoding, image)
    case Value(start, p1) =>
      (match PointerAt(data, p1, encoding, image)
       case Value(length, p2) =>
         (match PointerAt(data, p2, encoding, image)
          case Value(landingPad, p3) =>
            (match UlebAt(data, p3)
             case Value(_, p4) => Entry(CallSite(start, length, landingPad), p4)
             case _ => Unreadable)
          case _ => Unreadable)
       case _ => Unreadable)
    case _ => Unreadable
  }

  /** A pointer takes no byte back, a number at least one. */
  lemma PointerAdvances(data: seq<byte>, p: nat, encoding: nat, image: Image)
    ensures PointerAt(data, p, encoding, image).Value? ==> p <= PointerAt(data, p, encoding, image).next
    ensures UlebAt(data, p).Value? ==> p < UlebAt(data, p).next <= |data|
  {
    hide Number, Pow2, Decode;
    if p <= |data| {
      DecodeLength(data[p..]);
    }
  }

  lemma EntryAdvances(data: seq<byte>, p: nat, encoding: nat, image: Image)
    ensures var e := EntryAt(data, p, encoding, image); e.Entry? ==> p < e.next <= |data|
  {
    hide PointerAt, UlebAt;
    if EntryAt(data, p, encoding, image).Entry? {
      PointerAdvances(data, p, encoding, image);
      var p1 := PointerAt(data, p, encoding, image).next;
      PointerAdvances(data, p1, encoding, image);
      var p2 := PointerAt(data, p1, encoding, image).next;
      PointerAdvances(data, p2, encoding, image);
      PointerAdvances(data, PointerAt(data, p2, encoding, image).next, encoding, image);
    }
  }

  /** The entries that can be read, and whether that is all of them. */
  datatype Table = Table(sites: seq<CallSite>, complete: bool)

  function TableFrom(data: seq<byte>, p: nat, end: nat, encoding: nat, image: Image): Table
    decreases |data| - p
  {
    if p >= end then Table([], true)
    else
      var e := EntryAt(data, p, encoding, image);
      EntryAdvances(data, p, encoding, image);
      if e.Unreadable? then Table([], false)
      else
        var rest := TableFrom(data, e.next, end, encoding, image);
        Table([e.site] + rest.sites, rest.complete)
  }

  /** The first site that has a landing pad and covers the pc decides. */
  function FirstLanding(sites: seq<CallSite>, pcOffset: nat): Found {
    if sites == [] then ContinueUnwind
    else if Covers(sites[0], pcOffset) then Install(sites[0].landingPad)
    else FirstLanding(sites[1..], pcOffset)
  }

  ghost predicate FirstCovering(sites: seq<CallSite>, pcOffset: nat, i: nat) {
    i < |sites| && Covers(sites[i], pcOffset) && forall j :: 0 <= j < i ==> !Covers(sites[j], pcOffset)
  }

  /** The walk's answer is the first site that covers the pc. */
  lemma {:induction false} FirstLandingCovers(sites: seq<CallSite>, pcOffset: nat)
    ensures match FirstLanding(sites, pcOffset)
      case Install(pad) => exists i :: 0 <= i < |sites| && FirstCovering(sites, pcOffset, i) && sites[i].landingPad == pad != 0
      case ContinueUnwind => forall i :: 0 <= i < |sites| ==> !Covers(sites[i], pcOffset)
      case Broken => false
  {
    if sites != [] {
      if Covers(sites[0], pcOffset) {
        assert FirstCovering(sites, pcOffset, 0);
      } else {
        FirstLandingCovers(sites[1..], pcOffset);
        if FirstLanding(sites, pcOffset).Install? {
          var i :| 0 <= i < |sites| - 1 && FirstCovering(sites[1..], pcOffset, i)
                && sites[1..][i].landingPad == FirstLanding(sites, pcOffset).landingPad;
          assert forall j :: 0 < j < i + 1 ==> sites[j] == sites[1..][j - 1];
          assert FirstCovering(sites, pcOffset, i + 1);
        }
      }
    }
  }

  /** In the terms of the table: the answer is the pad of the first site that has one
      and whose half-open range, its end taken modulo 2^64, holds the pc; and there is
      none exactly when unwinding continues. */
  lemma FirstLandingIsFirst(sites: seq<CallSite>, pcOffset: nat)
    ensures match FirstLanding(sites, pcOffset)
      case Install(pad) => exists i ::
        && 0 <= i < |sites|
        && sites[i].landingPad == pad != 0
        && sites[i].start <= pcOffset < (sites[i].start + sites[i].length) % 0x1_0000_0000_0000_0000
        && forall j :: 0 <= j < i ==>
          || sites[j].landingPad == 0
          || pcOffset < sites[j].start
          || (sites[j].start + sites[j].length) % 0x1_0000_0000_0000_0000 <= pcOffset
      case ContinueUnwind => (forall i :: 0 <= i < |sites| ==>
          || sites[i].landingPad == 0
          || pcOffset < sites[i].start
          || (sites[i].start + sites[i].length) % 0x1_0000_0000_0000_0000 <= pcOffset)
      case Broken => false
  {
    hide FirstLanding, Pow2;
    Pow2Values();
    FirstLandingCovers(sites, pcOffset);
    if FirstLanding(sites, pcOffset).Install? {
      var i :| 0 <= i < |sites| && FirstCovering(sites, pcOffset, i)
            && sites[i].landingPad == FirstLanding(sites, pcOffset).landingPad;
      assert Covers(sites[i], pcOffset);
    }
  }

  lemma {:induction false} LandingAfter(passed: seq<CallSite>, sites: seq<CallSite>, pcOffset: nat)
    requires forall i :: 0 <= i < |passed| ==> !Covers(passed[i], pcOffset)
    ensures FirstLanding(passed + sites, pcOffset) == FirstLanding(sites, pcOffset)
  {
    hide Covers;
    if passed == [] {
      assert passed + sites == sites;
    } else {
      assert (passed + sites)[1..] == passed[1..] + sites;
      LandingAfter(passed[1..], sites, pcOffset);
    }
  }

  /** What the walk must answer: what cannot be read matters only when nothing
      before it decides. */
  function Landing(table: Table, pcOffset: nat): Found {
    var found := FirstLanding(table.sites, pcOffset);
    if found == ContinueUnwind && !table.complete then Broken else found
  }

  /** The walk over the call-site table. */
  method WalkCallSites(data: seq<byte>, tableStart: nat, tableLength: nat, encoding: nat, image: Image, pcOffset: nat)
    returns (found: Found)
    ensures found == Landing(TableFrom(data, tableStart, tableStart + tableLength, encoding, image), pcOffset)
  {
    hide EntryAt, Covers, TableFrom, FirstLanding;
    var p, end := tableStart, tableStart + tableLength;
    ghost var table := TableFrom(data, tableStart, end, encoding, image);
    ghost var passed: seq<CallSite> := [];
    NothingPassed(table);
    while p < end
      invariant Splits(table, passed, TableFrom(data, p, end, encoding, image))
      invariant forall i :: 0 <= i < |passed| ==> !Covers(passed[i], pcOffset)
      decreases |data| - p
    {
      var e := EntryAt(data, p, encoding, image);
      ghost var rest := TableFrom(data, p, end, encoding, image);
      EntryAdvances(data, p, encoding, image);
      TableStep(data, p, end, encoding, image);
      LandingAfter(passed, rest.sites, pcOffset);
      if e.Unreadable? {
        NoneLeft(pcOffset);
        return Broken;
      }
      if Covers(e.site, pcOffset) {
        LandingHere(rest.sites, pcOffset);
        return Install(e.site.landingPad);
      }
      OneMorePassed(table, passed, rest, e.site, TableFrom(data, e.next, end, encoding, image));
      passed := passed + [e.site];
      p := e.next;
    }
    TableEnd(data, p, end, encoding, image);
    LandingAfter(passed, [], pcOffset);
    NoneLeft(pcOffset);
    return ContinueUnwind;
  }

  lemma NoneLeft(pcOffset: nat)
    ensures FirstLanding([], pcOffset) == ContinueUnwind
  {}

  lemma LandingHere(sites: seq<CallSite>, pcOffset: nat)
    requires sites != [] && Covers(sites[0], pcOffset)
    ensures FirstLanding(sites, pcOffset) == Install(sites[0].landingPad)
  {}

  /** The table is what has been passed and what is still to come. */
  ghost predicate Splits(table: Table, passed: seq<CallSite>, rest: Table) {
    table == Table(passed + rest.sites, rest.complete)
  }

  lemma NothingPassed(table: Table)
    ensures Splits(table, [], table)
  {
    assert [] + table.sites == table.sites;
  }

  lemma OneMorePassed(table: Table, passed: seq<CallSite>, middle: Table, site: CallSite, rest: Table)
    requires Splits(table, passed, middle) && Splits(middle, [site], rest)
    ensures Splits(table, passed + [site], rest)
  {
    assert passed + ([site] + rest.sites) == passed + [site] + rest.sites;
  }

  lemma TableStep(data: seq<byte>, p: nat, end: nat, encoding: nat, image: Image)
    requires p < end
    ensures var e := EntryAt(data, p, encoding, image); var table := TableFrom(data, p, end, encoding, image);
      if e.Unreadable? then table == Table([], false)
      else Splits(table, [e.site], TableFrom(data, e.next, end, encoding, image)) && table.sites != [] && table.sites[0] == e.site
  {
    hide EntryAt;
  }

  lemma TableEnd(data: seq<byte>, p: nat, end: nat, encoding: nat, image: Image)
    requires p >= end
    ensures TableFrom(data, p, end, encoding, image) == Table([], true)
  {}

  // ---- tables as a compiler writes them ----

  /** The encodings the reader knows. */
  predicate Supported(encoding: nat) {
    || encoding == DW_EH_PE_OMIT
    || (encoding < DW_EH_PE_OMIT && encoding / 16 % 8 <= 1
        && (encoding % 16 == DW_EH_PE_ULEB128 || FixedSize(encoding % 16).Some?))
  }

  /** The supported encodings, and that the reader aborts on no other. */
  lemma SupportedExactly(data: seq<byte>, start: nat, encoding: nat, image: Image)
    requires encoding < 0x100
    ensures Supported(encoding) <==>
      || encoding == 0xff
      || (encoding / 0x10 in {0, 1, 8, 9} && encoding % 0x10 in {0x00, 0x01, 0x02, 0x03, 0x04, 0x0a, 0x0b, 0x0c})
    ensures Supported(encoding) ==> PointerAt(data, start, encoding, image) != Abort
    ensures !Supported(encoding) ==> !PointerAt(data, start, encoding, image).Value?
  {
    hide UlebAt, Number, Pow2;
    UlebNeverAborts(data, start);
  }

  lemma UlebNeverAborts(data: seq<byte>, start: nat)
    ensures UlebAt(data, start) != Abort
  {}

  /** The number written at an address so that it leads to the target. */
  function Written(encoding: nat, target: nat, address: nat): nat {
    if Relative(encoding) then Wrap(64, target - address) else target
  }

  /** A format has room for a 64-bit number, extending the sign where it has one. */
  predicate Fits(format: nat, x: nat)
    requires format == DW_EH_PE_ULEB128 || FixedSize(format).Some?
  {
    if format == DW_EH_PE_ULEB128 then x < 0x8000_0000
    else
      var bits := 8 * FixedSize(format).value;
      if format >= 0x0a then 0 - Pow2(bits - 1) <= Signed(64, x) < Pow2(bits - 1) else x < Pow2(bits)
  }

  /** The target can be written at the address and, if it is to be read through,
      holds a pointer. */
  predicate Representable(encoding: nat, target: nat, address: nat, image: Image)
    requires Supported(encoding)
  {
    if encoding == DW_EH_PE_OMIT then target == 0
    else
      && target < Pow2(64) && Fits(encoding % 16, Written(encoding, target, address))
      && (Indirect(encoding) ==> target in image.words)
  }

  function EncodeFormat(format: nat, x: nat): seq<byte>
    requires format == DW_EH_PE_ULEB128 || FixedSize(format).Some?
  {
    if format == DW_EH_PE_ULEB128 then Encode(x) else Digits(FixedSize(format).value, x)
  }

  function EncodePointer(encoding: nat, target: nat, address: nat): seq<byte>
    requires Supported(encoding)
  {
    if encoding == DW_EH_PE_OMIT then [] else EncodeFormat(encoding % 16, Written(encoding, target, address))
  }

  /** What a written pointer stands for: its target, or the pointer stored there. */
  function Meaning(encoding: nat, target: nat, image: Image): nat {
    if encoding != DW_EH_PE_OMIT && Indirect(encoding) && target in image.words then image.words[target] else target
  }

  lemma SignExtends(bits: nat, x: nat)
    requires 0 < bits <= 64 && x < Pow2(64) && 0 - Pow2(bits - 1) <= Signed(64, x) < Pow2(bits - 1)
    ensures Wrap(64, Signed(bits, x % Pow2(bits))) == x
  {
    hide Pow2;
    Pow2AsDouble(bits);
    Pow2AsDouble(64);
    Pow2Add(64 - bits, bits);
    Pow2Monotone(bits, 64);
    if x < Pow2(63) {
      DivModUnique(x, Pow2(bits), 0, x);
      DivModUnique(x, Pow2(64), 0, x);
    } else {
      var y := x - Pow2(64) + Pow2(bits);
      MulDistribute(Pow2(64 - bits), 1, Pow2(bits));
      DivModUnique(x, Pow2(bits), Pow2(64 - bits) - 1, y);
      DivModUnique(y - Pow2(bits), Pow2(64), -1, x);
    }
  }

  /** Widening a signed field restores no number it has no room for. */
  lemma SignCut(bits: nat, x: nat)
    requires 0 < bits <= 64 && x < Pow2(64) && Wrap(64, Signed(bits, x % Pow2(bits))) == x
    ensures 0 - Pow2(bits - 1) <= Signed(64, x) < Pow2(bits - 1)
  {
    hide Pow2;
    Pow2AsDouble(bits);
    Pow2AsDouble(64);
    Pow2Monotone(bits, 64);
    DivModIdentity(x, Pow2(bits));
    var y := Signed(bits, x % Pow2(bits));
    if y >= 0 {
      DivModUnique(y, Pow2(64), 0, y);
    } else {
      DivModUnique(y, Pow2(64), -1, y + Pow2(64));
    }
  }

  /** A number written in a format is read back exactly when the format has room for it. */
  lemma FormatRoundTrip(before: seq<byte>, format: nat, x: nat, rest: seq<byte>)
    requires (format == DW_EH_PE_ULEB128 || FixedSize(format).Some?) && x < Pow2(64)
    ensures FormatAt(before + EncodeFormat(format, x) + rest, |before|, format)
         == Value(x, |before| + |EncodeFormat(format, x)|)
         <==> Fits(format, x)
  {
    hide UlebAt, Encode, Number, Digits, Pow2, Signed, Wrap;
    if format == DW_EH_PE_ULEB128 {
      UlebRoundTrip(before, x, rest);
    } else {
      var n := FixedSize(format).value;
      var data := before + EncodeFormat(format, x) + rest;
      assert data[|before|..|before| + n] == Digits(n, x);
      NumberOfDigits(n, x);
      DivModIdentity(x, Pow2(8 * n));
      if format >= 0x0a {
        if Fits(format, x) {
          SignExtends(8 * n, x);
        } else if Wrap(64, Signed(8 * n, x % Pow2(8 * n))) == x {
          SignCut(8 * n, x);
        }
      } else if Fits(format, x) {
        DivModUnique(x, Pow2(8 * n), 0, x);
      }
    }
  }

  /** Adding the address back. */
  lemma RelativeAgain(target: nat, address: nat)
    requires target < Pow2(64)
    ensures Wrap(64, Wrap(64, target - address) + address) == target
  {
    hide Pow2;
    DivModIdentity(target - address, Pow2(64));
    var q := (target - address) / Pow2(64);
    MulNegate(q, Pow2(64));
    DivModUnique(Wrap(64, target - address) + address, Pow2(64), -q, target);
  }

  /** Whatever the encoding, a pointer is read back as what it was written for. */
  lemma PointerRoundTrip(before: seq<byte>, encoding: nat, target: nat, rest: seq<byte>, image: Image)
    requires Supported(encoding) && Representable(encoding, target, image.base + |before|, image)
    ensures PointerAt(before + EncodePointer(encoding, target, image.base + |before|) + rest, |before|, encoding, image)
         == Value(Meaning(encoding, target, image), |before| + |EncodePointer(encoding, target, image.base + |before|)|)
  {
    hide FormatAt, EncodeFormat, Fits, Pow2, Wrap;
    if encoding != DW_EH_PE_OMIT {
      var address := image.base + |before|;
      var x := Written(encoding, target, address);
      WrapFits(target - address);
      FormatRoundTrip(before, encoding % 16, x, rest);
      RelativeAgain(target, address);
    }
  }

  lemma WrapFits(x: int)
    ensures Wrap(64, x) < Pow2(64)
  {}

  /** A row of the table: what its pointers are written for, and an action. */
  datatype Row = Row(targets: CallSite, action: nat)

  /** The call site a row stands for. */
  function Site(encoding: nat, r: Row, image: Image): CallSite {
    CallSite(Meaning(encoding, r.targets.start, image),
             Meaning(encoding, r.targets.length, image),
             Meaning(encoding, r.targets.landingPad, image))
  }

  /** Where in a row its second and third pointer and its action stand. */
  function LengthAt(encoding: nat, r: Row, address: nat): nat
    requires Supported(encoding)
  {
    address + |EncodePointer(encoding, r.targets.start, address)|
  }

  function LandingPadAt(encoding: nat, r: Row, address: nat): nat
    requires Supported(encoding)
  {
    var at := LengthAt(encoding, r, address);
    at + |EncodePointer(encoding, r.targets.length, at)|
  }

  predicate RowOk(encoding: nat, r: Row, address: nat, image: Image)
    requires Supported(encoding)
  {
    && Representable(encoding, r.targets.start, address, image)
    && Representable(encoding, r.targets.length, LengthAt(encoding, r, address), image)
    && Representable(encoding, r.targets.landingPad, LandingPadAt(encoding, r, address), image)
    && r.action < 0x8000_0000
  }

  function EncodeRow(encoding: nat, r: Row, address: nat): seq<byte>
    requires Supported(encoding)
  {
    EncodePointer(encoding, r.targets.start, address)
    + EncodePointer(encoding, r.targets.length, LengthAt(encoding, r, address))
    + EncodePointer(encoding, r.targets.landingPad, LandingPadAt(encoding, r, address))
    + Encode(r.action)
  }

  lemma RowRoundTrip(before: seq<byte>, encoding: nat, r: Row, rest: seq<byte>, image: Image)
    requires Supported(encoding) && RowOk(encoding, r, image.base + |before|, image)
    ensures EntryAt(before + EncodeRow(encoding, r, image.base + |before|) + rest, |before|, encoding, image)
         == Entry(Site(encoding, r, image), |before| + |EncodeRow(encoding, r, image.base + |before|)|)
  {
    hide PointerAt, UlebAt, Encode, EncodePointer, Representable, Meaning;
    var address := image.base + |before|;
    var data := before + EncodeRow(encoding, r, address) + rest;
    var a := EncodePointer(encoding, r.targets.start, address);
    var b := EncodePointer(encoding, r.targets.length, LengthAt(encoding, r, address));
    var c := EncodePointer(encoding, r.targets.landingPad, LandingPadAt(encoding, r, address));
    var d := Encode(r.action);
    assert data == before + a + (b + c + d + rest);
    PointerRoundTrip(before, encoding, r.targets.start, b + c + d + rest, image);
    assert data == (before + a) + b + (c + d + rest);
    PointerRoundTrip(before + a, encoding, r.targets.length, c + d + rest, image);
    assert data == (before + a + b) + c + (d + rest);
    PointerRoundTrip(before + a + b, encoding, r.targets.landingPad, d + rest, image);
    assert data == (before + a + b + c) + d + rest;
    UlebRoundTrip(before + a + b + c, r.action, rest);
  }

  predicate RowsOk(encoding: nat, rows: seq<Row>, address: nat, image: Image)
    requires Supported(encoding)
  {
    rows == [] ||
    (RowOk(encoding, rows[0], address, image)
     && RowsOk(encoding, rows[1..], address + |EncodeRow(encoding, rows[0], address)|, image))
  }

  function EncodeTable(encoding: nat, rows: seq<Row>, address: nat): seq<byte>
    requires Supported(encoding)
  {
    if rows == [] then []
    else
      var row := EncodeRow(encoding, rows[0], address);
      row + EncodeTable(encoding, rows[1..], address + |row|)
  }

  function Sites(encoding: nat, rows: seq<Row>, image: Image): (sites: seq<CallSite>)
    ensures |sites| == |rows| && forall i :: 0 <= i < |rows| ==> sites[i] == Site(encoding, rows[i], image)
  {
    seq(|rows|, i requires 0 <= i < |rows| => Site(encoding, rows[i], image))
  }

  /** Every table a compiler writes is read back entry by entry. */
  lemma {:induction false} TableRoundTrip(before: seq<byte>, encoding: nat, rows: seq<Row>, rest: seq<byte>,
                                          image: Image)
    requires Supported(encoding) && RowsOk(encoding, rows, image.base + |before|, image)
    ensures var table := EncodeTable(encoding, rows, image.base + |before|);
      TableFrom(before + table + rest, |before|, |before| + |table|, encoding, image)
      == Table(Sites(encoding, rows, image), true)
    decreases |rows|
  {
    hide EntryAt, RowOk, EncodeRow, Site, Meaning, PointerAt, UlebAt, Encode, EncodePointer;
    if rows == [] {
    } else {
      var address := image.base + |before|;
      var row := EncodeRow(encoding, rows[0], address);
      var more := EncodeTable(encoding, rows[1..], address + |row|);
      var data := before + EncodeTable(encoding, rows, address) + rest;
      assert data == before + row + (more + rest);
      RowRoundTrip(before, encoding, rows[0], more + rest, image);
      EntryAdvances(data, |before|, encoding, image);
      assert data == (before + row) + more + rest;
      TableRoundTrip(before + row, encoding, rows[1..], rest, image);
      assert Sites(encoding, rows, image) == [Site(encoding, rows[0], image)] + Sites(encoding, rows[1..], image);
    }
  }

  /** Walking a table as a compiler writes it installs the landing pad of the first
      row that has one and covers the pc, and continues unwinding if none does. */
  lemma WrittenTableWalk(before: seq<byte>, encoding: nat, rows: seq<Row>, rest: seq<byte>, image: Image, pcOffset: nat)
    requires Supported(encoding) && RowsOk(encoding, rows, image.base + |before|, image)
    ensures var table := EncodeTable(encoding, rows, image.base + |before|); var sites := Sites(encoding, rows, image);
      match Landing(TableFrom(before + table + rest, |before|, |before| + |table|, encoding, image), pcOffset)
      case Install(pad) => exists i :: 0 <= i < |sites| && FirstCovering(sites, pcOffset, i) && sites[i].landingPad == pad != 0
      case ContinueUnwind => forall i :: 0 <= i < |sites| ==> !Covers(sites[i], pcOffset)
      case Broken => false
  {
    hide TableFrom, EncodeTable, Covers, FirstCovering, FirstLanding;
    TableRoundTrip(before, encoding, rows, rest, image);
    FirstLandingCovers(Sites(encoding, rows, image), pcOffset);
  }

  lemma CompleteTable(sites: seq<CallSite>, pcOffset: nat)
    ensures Landing(Table(sites, true), pcOffset) == FirstLanding(sites, pcOffset)
  {}

  // ---- the whole area ----

  /** What stands before the call-site table: its encoding, place and length. */
  datatype Header = Header(encoding: nat, start: nat, length: nat) | NoHeader

  /** The header after the optional landing pad base. */
  function TypeTableAt(data: seq<byte>, p: nat): Header {
    if p >= |data| then NoHeader
    else
      var types := if data[p] == DW_EH_PE_OMIT then Value(0, p + 1) else UlebAt(data, p + 1);
      match types
      case Value(_, q) =>
        if q >= |data| then NoHeader
        else
          (match UlebAt(data, q + 1)
           case Value(length, start) => Header(data[q], start, length)
           case _ => NoHeader)
      case _ => NoHeader
  }

  function HeaderAt(data: seq<byte>, image: Image): Header {
    if data == [] then NoHeader
    else
      match PointerAt(data, 1, data[0], image)
      case Value(_, p) => TypeTableAt(data, p)
      case _ => NoHeader
  }

  /** What __gcc_personality_v0 answers in the cleanup phase for a frame with this area. */
  function Answer(data: seq<byte>, image: Image, pcOffset: nat): Found {
    match HeaderAt(data, image)
    case NoHeader => Broken
    case Header(encoding, start, length) => Landing(TableFrom(data, start, start + length, encoding, image), pcOffset)
  }

  /** __gcc_personality_v0 from the area on. */
  method Personality(data: seq<byte>, image: Image, pcOffset: nat) returns (found: Found)
    ensures found == Answer(data, image, pcOffset)
  {
    hide PointerAt, UlebAt, TableFrom, Landing;
    if data == [] {
      return Broken;
    }
    var p := 1;
    if data[0] != DW_EH_PE_OMIT {
      var base := PointerAt(data, 1, data[0], image);
      if !base.Value? {
        return Broken;
      }
      p := base.next;
    } else {
      OmittedPointer(data, 1, image);
    }
    if p >= |data| {
      return Broken;
    }
    var types := data[p];
    p := p + 1;
    if types != DW_EH_PE_OMIT {
      UlebInside(data, p);
      var offset := ReadUleb128(data, p);
      if !offset.Value? {
        return Broken;
      }
      p := offset.next;
    }
    if p >= |data| {
      return Broken;
    }
    var encoding := data[p];
    var length := ReadUleb128(data, p + 1);
    if !length.Value? {
      return Broken;
    }
    found := WalkCallSites(data, length.next, length.v, encoding, image, pcOffset);
  }

  lemma OmittedPointer(data: seq<byte>, p: nat, image: Image)
    ensures PointerAt(data, p, DW_EH_PE_OMIT, image) == Value(0, p)
  {}

  lemma UlebInside(data: seq<byte>, p: nat)
    ensures UlebAt(data, p).Value? ==> p < UlebAt(data, p).next <= |data|
  {
    if p <= |data| {
      DecodeLength(data[p..]);
    }
  }

  /** The header compilers write: no landing pad base, perhaps a type table. */
  function EncodeHeader(types: Option<(byte, nat)>, encoding: byte, length: nat): seq<byte> {
    [DW_EH_PE_OMIT]
    + (if types.None? then [DW_EH_PE_OMIT] else [types.value.0] + Encode(types.value.1))
    + [encoding] + Encode(length)
  }

  lemma HeaderRoundTrip(types: Option<(byte, nat)>, encoding: byte, length: nat, rest: seq<byte>, image: Image)
    requires length < 0x8000_0000
    requires types.Some? ==> types.value.0 != DW_EH_PE_OMIT && types.value.1 < 0x8000_0000
    ensures HeaderAt(EncodeHeader(types, encoding, length) + rest, image)
         == Header(encoding, |EncodeHeader(types, encoding, length)|, length)
  {
    hide UlebAt, PointerAt, Encode;
    var header := EncodeHeader(types, encoding, length);
    var data := header + rest;
    OmittedPointer(data, 1, image);
    if types.None? {
      var front: seq<byte> := [DW_EH_PE_OMIT, DW_EH_PE_OMIT, encoding];
      assert data == front + Encode(length) + rest && header == front + Encode(length);
      UlebRoundTrip(front, length, rest);
    } else {
      var front: seq<byte> := [DW_EH_PE_OMIT, types.value.0];
      var offset := Encode(types.value.1);
      assert data == front + offset + ([encoding] + Encode(length) + rest);
      UlebRoundTrip(front, types.value.1, [encoding] + Encode(length) + rest);
      var middle := front + offset + [encoding];
      assert data == middle + Encode(length) + rest && header == middle + Encode(length);
      UlebRoundTrip(middle, length, rest);
    }
  }

  lemma AnswerAfterHeader(data: seq<byte>, image: Image, pcOffset: nat, encoding: nat, start: nat, length: nat)
    requires HeaderAt(data, image) == Header(encoding, start, length)
    ensures Answer(data, image, pcOffset) == Landing(TableFrom(data, start, start + length, encoding, image), pcOffset)
  {
    hide HeaderAt, TableFrom, Landing;
  }

  /** Header and table together. */
  lemma WrittenAreaWalk(types: Option<(byte, nat)>, encoding: byte, rows: seq<Row>, length: nat, rest: seq<byte>, image: Image, pcOffset: nat)
    requires Supported(encoding) && length < 0x8000_0000
    requires types.Some? ==> types.value.0 != DW_EH_PE_OMIT && types.value.1 < 0x8000_0000
    requires var address := image.base + |EncodeHeader(types, encoding, length)|;
      RowsOk(encoding, rows, address, image) && length == |EncodeTable(encoding, rows, address)|
    ensures var header := EncodeHeader(types, encoding, length);
      Answer(header + EncodeTable(encoding, rows, image.base + |header|) + rest, image, pcOffset)
      == FirstLanding(Sites(encoding, rows, image), pcOffset)
  {
    hide *;
    var header := EncodeHeader(types, encoding, length);
    var table := EncodeTable(encoding, rows, image.base + |header|);
    assert header + table + rest == header + (table + rest);
    HeaderRoundTrip(types, encoding, length, table + rest, image);
    AnswerAfterHeader(header + table + rest, image, pcOffset, encoding, |header|, length);
    TableRoundTrip(header, encoding, rows, rest, image);
    CompleteTable(Sites(encoding, rows, image), pcOffset);
  }

  /** For an area as a compiler writes it the personality routine installs the
      landing pad of the first row that has one and covers the pc, and otherwise
      continues unwinding. */
  lemma WrittenAreaAnswer(types: Option<(byte, nat)>, encoding: byte, rows: seq<Row>, length: nat, rest: seq<byte>, image: Image, pcOffset: nat)
    requires Supported(encoding) && length < 0x8000_0000
    requires types.Some? ==> types.value.0 != DW_EH_PE_OMIT && types.value.1 < 0x8000_0000
    requires var address := image.base + |EncodeHeader(types, encoding, length)|;
      RowsOk(encoding, rows, address, image) && length == |EncodeTable(encoding, rows, address)|
    ensures var header := EncodeHeader(types, encoding, length); var sites := Sites(encoding, rows, image);
      match Answer(header + EncodeTable(encoding, rows, image.base + |header|) + rest, image, pcOffset)
      case Install(pad) => exists i ::
        && 0 <= i < |sites|
        && sites[i].landingPad == pad != 0
        && sites[i].start <= pcOffset < (sites[i].start + sites[i].length) % 0x1_0000_0000_0000_0000
        && forall j :: 0 <= j < i ==>
          || sites[j].landingPad == 0
          || pcOffset < sites[j].start
          || (sites[j].start + sites[j].length) % 0x1_0000_0000_0000_0000 <= pcOffset
      case ContinueUnwind => (forall i :: 0 <= i < |sites| ==>
          || sites[i].landingPad == 0
          || pcOffset < sites[i].start
          || (sites[i].start + sites[i].length) % 0x1_0000_0000_0000_0000 <= pcOffset)
      case Broken => false
  {
    hide *;
    WrittenAreaWalk(types, encoding, rows, length, rest, image, pcOffset);
    FirstLandingIsFirst(Sites(encoding, rows, image), pcOffset);
  }
}
