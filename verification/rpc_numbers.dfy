/**
 What WRITE makes of a number (core/ipc/tag_rpc_plc.c:160-252): every text that strtoul with base 0 consumes to its end,
 be it decimal, octal or hexadecimal, with white space and a sign in front.
 */
module RpcNumbers {
  import opened RpcText
  import opened Tags
  import opened Words

  /** The digits of the three bases, in both spellings. */
  lemma DigitsMean(d: nat)
    requires d < 16
    ensures DigitOf("0123456789abcdef"[d]) == d && DigitOf("0123456789ABCDEF"[d]) == d
  {
  }

  /** Nothing else is a digit, and white space is the space and the characters from tab to carriage return. */
  lemma OtherCharacters(c: char)
    ensures DigitOf(c) >= 36 <==> !('0' <= c <= '9' || 'a' <= c <= 'z' || 'A' <= c <= 'Z')
    ensures IsSpace(c) <==> c as int == 32 || 9 <= c as int <= 13
  {
  }

  ghost predicate Digits(s: string, base: nat) {
    s != [] && forall i :: 0 <= i < |s| ==> DigitOf(s[i]) < base
  }

  /** The body spells the number: decimal, octal after a leading 0, or hexadecimal after 0x. */
  ghost predicate Spells(body: string, n: nat) {
    || (Digits(body, 10) && body[0] != '0' && n == ValueOf(body, 10))
    || (Digits(body, 8) && body[0] == '0' && n == ValueOf(body, 8))
    || (|body| > 2 && body[0] == '0' && (body[1] == 'x' || body[1] == 'X') && Digits(body[2..], 16)
        && n == ValueOf(body[2..], 16))
  }

  ghost predicate Spaces(s: string) {
    forall i :: 0 <= i < |s| ==> IsSpace(s[i])
  }

  /** The text is white space, a sign or none, and a body that spells `n`. */
  ghost predicate Denotes(text: string, space: string, sign: string, body: string, n: nat) {
    && text == space + sign + body
    && Spaces(space) && (sign == "" || sign == "+" || sign == "-") && Spells(body, n)
  }

  /** The integer a text means. */
  function Signed(sign: string, n: nat): int {
    if sign == "-" then 0 - n else n
  }

  /** The cast to an unsigned type of `modulus` values. */
  function Wrapped(z: int, modulus: nat): (w: nat)
    requires modulus > 0
    ensures w < modulus
  {
    z % modulus
  }

  // ---------------------------------------------------------------- the body

  lemma {:induction false} RunOfDigits(s: string, base: nat)
    ensures DigitRun(s, base) == |s| <==> forall i :: 0 <= i < |s| ==> DigitOf(s[i]) < base
  {
    hide DigitOf;
    if s != [] {
      RunOfDigits(s[1..], base);
      assert s == [s[0]] + s[1..];
    }
  }

  lemma NotHex(body: string, base: nat)
    requires Digits(body, base) && base <= 10
    ensures !HexPrefix(body)
  {
  }

  lemma SpeltIsRead(body: string, n: nat)
    requires Spells(body, n)
    ensures Unsigned(body) == (n, |body|)
  {
    if HexPrefix(body) {
      HexIsRead(body, n);
    } else {
      RunOfDigits(body, 10);
      RunOfDigits(body, 8);
      assert body[..|body|] == body;
      hide ValueOf, DigitRun;
    }
  }

  lemma HexIsRead(body: string, n: nat)
    requires Spells(body, n) && HexPrefix(body)
    ensures Unsigned(body) == (n, |body|)
  {
    assert DigitOf('x') >= 10 && DigitOf('X') >= 10;
    assert DigitOf(body[1]) >= 10;
    hide DigitOf;
    RunOfDigits(body[2..], 16);
    assert body[2..2 + |body[2..]|] == body[2..];
  }

  lemma ReadIsSpelt(body: string)
    requires body != [] && Unsigned(body).1 == |body|
    ensures Spells(body, Unsigned(body).0)
  {
    if HexPrefix(body) {
      RunOfDigits(body[2..], 16);
      assert body[2..|body|] == body[2..];
    } else {
      RunOfDigits(body, 10);
      RunOfDigits(body, 8);
      assert body[..|body|] == body;
    }
    hide ValueOf, DigitRun, DigitOf;
  }

  // ---------------------------------------------------------------- white space and sign

  lemma {:induction false} RunOfSpaces(space: string, rest: string)
    requires Spaces(space) && (rest != [] ==> !IsSpace(rest[0]))
    ensures SpaceRun(space + rest) == |space|
  {
    if space == [] {
      assert space + rest == rest;
    } else {
      assert (space + rest)[0] == space[0] && (space + rest)[1..] == space[1..] + rest;
      RunOfSpaces(space[1..], rest);
    }
  }

  lemma {:induction false} SpacesOfRun(s: string)
    ensures Spaces(s[..SpaceRun(s)])
  {
    if s != [] && IsSpace(s[0]) {
      SpacesOfRun(s[1..]);
      assert s[..SpaceRun(s)] == [s[0]] + s[1..][..SpaceRun(s[1..])];
    }
  }

  lemma BodyStart(body: string, n: nat)
    requires Spells(body, n)
    ensures body != [] && !IsSpace(body[0]) && body[0] != '+' && body[0] != '-'
  {
    assert DigitOf(body[0]) < 10;
    hide ValueOf;
  }

  /** Where strtoul finds the body. */
  lemma SignIsSkipped(space: string, sign: string, body: string, n: nat)
    requires Denotes(space + sign + body, space, sign, body, n)
    ensures var text, w := space + sign + body, |space|;
      && SpaceRun(text) == w < |text|
      && ((text[w] == '-' || text[w] == '+') <==> sign != "") && (text[w] == '-' <==> sign == "-")
      && text[w + |sign|..] == body
  {
    BodyStart(body, n);
    hide Spells, IsSpace;
    assert !IsSpace('+') && !IsSpace('-') by {
      SignsAreNoSpace();
    }
    RunOfSpaces(space, sign + body);
    assert space + sign + body == space + (sign + body);
  }

  lemma SignsAreNoSpace()
    ensures !IsSpace('+') && !IsSpace('-')
  {
  }

  /** strtoul on a text that denotes an integer: consumed to its end, negated modulo ULONG_MAX + 1, or saturated. */
  lemma StrtoulOfDenoted(text: string, space: string, sign: string, body: string, n: nat, ulong: nat)
    requires ulong > 0 && Denotes(text, space, sign, body, n)
    ensures Strtoul(text, ulong) == (if n >= ulong then ulong - 1 else Wrapped(Signed(sign, n), ulong), |text|)
  {
    SignIsSkipped(space, sign, body, n);
    SpeltIsRead(body, n);
    BodyStart(body, n);
    hide Denotes, Spells, Unsigned, SpaceRun, IsSpace;
    if n < ulong {
      Wraps(sign, n, ulong);
    }
  }

  lemma Wraps(sign: string, n: nat, ulong: nat)
    requires n < ulong
    ensures Wrapped(Signed(sign, n), ulong) == if sign == "-" && n > 0 then ulong - n else n
  {
    if sign == "-" && n > 0 {
      ModUnique(0 - n, ulong, -1, ulong - n);
    } else {
      ModUnique(n, ulong, 0, n);
    }
  }

  /** And the other way round: what strtoul consumes to its end, unless empty, denotes an integer. */
  lemma ConsumedIsDenoted(text: string, ulong: nat) returns (space: string, sign: string, body: string, n: nat)
    requires ulong > 0 && text != [] && Strtoul(text, ulong).1 == |text|
    ensures Denotes(text, space, sign, body, n)
  {
    var w := SpaceRun(text);
    var signed := w < |text| && (text[w] == '-' || text[w] == '+');
    var at := if signed then w + 1 else w;
    space, sign, body := text[..w], text[w..at], text[at..];
    n := Unsigned(body).0;
    assert Unsigned(body).1 == |body| > 0;
    hide Unsigned, SpaceRun, DigitRun, IsSpace, Strtoul;
    ReadIsSpelt(body);
    SpacesOfRun(text);
    hide Spells, Spaces;
    SplitInThree(text, w, at);
  }

  lemma SplitInThree(text: string, w: nat, at: nat)
    requires w <= at <= w + 1 && at <= |text| && (at == w + 1 ==> text[w] == '-' || text[w] == '+')
    ensures text == text[..w] + text[w..at] + text[at..]
    ensures text[w..at] == "" || text[w..at] == "+" || text[w..at] == "-"
  {
    if at == w {
      assert text[w..at] == "";
    } else {
      assert text[w..at] == [text[w]];
    }
  }

  // ---------------------------------------------------------------- main results

  /** What "%u" prints is one of them. */
  lemma DecimalDenotes(n: nat)
    ensures Denotes(Decimal(n), "", "", Decimal(n), n)
  {
    hide Decimal, ValueOf;
    DecimalValue(n);
    assert Decimal(n) == "" + "" + Decimal(n);
    if n == 0 {
      ZeroIsOctal();
    }
  }

  lemma ZeroIsOctal()
    ensures Decimal(0) == "0" && ValueOf("0", 8) == 0
  {
    assert "0"[..0] == [];
  }

  predicate IsNumeric(typ: TagType) {
    typ == TU8 || typ == TU16 || typ == TU32
  }

  /** A text is a number for WRITE iff it is empty or denotes an integer; anything else is refused with EINVAL. */
  lemma NumberTextsAre(typ: TagType, text: string, ulong: nat)
    requires ulong > 0 && IsNumeric(typ)
    ensures BytesOf(typ, text, ulong, None) != Err(EINVAL)
       <==> text == "" || exists space, sign, body, n :: Denotes(text, space, sign, body, n)
  {
    hide Denotes, Little;
    if Strtoul(text, ulong).1 == |text| {
      if text != "" {
        var space, sign, body, n := ConsumedIsDenoted(text, ulong);
      }
    } else {
      forall space, sign, body, n | Denotes(text, space, sign, body, n) ensures false {
        StrtoulOfDenoted(text, space, sign, body, n, ulong);
      }
    }
    hide Strtoul;
  }

  /** How many values an 8- or 16-bit tag has. */
  function Limit(typ: TagType): nat {
    if typ == TU8 then 0x100 else 0x1_0000
  }

  /**
   Every text that denotes an integer, in an 8- or 16-bit tag: it is stored exactly or refused with ERANGE, apart from the
   negative numbers that the wrap around ULONG_MAX + 1 brings into the tag's range.
   */
  lemma NumbersIn8And16Bits(typ: TagType, text: string, space: string, sign: string, body: string, n: nat, ulong: nat)
    requires (typ == TU8 || typ == TU16) && Denotes(text, space, sign, body, n) && ulong >= U32
    ensures var z, r := Signed(sign, n), BytesOf(typ, text, ulong, None);
      && (r.Ok? <==> 0 <= z < Limit(typ) || 0 < z + ulong < Limit(typ))
      && r == if r.Ok? then Ok(Little(if z < 0 then z + ulong else z, TypeSize(typ))) else Err(ERANGE)
  {
    hide Strtoul, Little, Denotes, Wrapped, Spells, BoolOfText;
    StrtoulOfDenoted(text, space, sign, body, n, ulong);
    if n < ulong {
      Wraps(sign, n, ulong);
    }
  }

  /**
   In a 32-bit tag every text that denotes an integer is accepted: it is stored modulo 2^32, or as 2^32 - 1 from
   ULONG_MAX + 1 on in either direction, which is the integer itself iff it lies in 0..2^32-1.
   */
  lemma NumbersIn32Bits(text: string, space: string, sign: string, body: string, n: nat, ulong: nat)
    requires Denotes(text, space, sign, body, n) && ulong > 0 && ulong % U32 == 0
    ensures var z, r := Signed(sign, n), BytesOf(TU32, text, ulong, None);
      && r.Ok? && Number(r.value) == (if n < ulong then Wrapped(z, U32) else U32 - 1)
      && (Number(r.value) == z <==> 0 <= z < U32)
  {
    hide *;
    StrtoulOfDenoted(text, space, sign, body, n, ulong);
    WordAccepted(text, ulong);
    WordOf(sign, n, ulong);
    SignedIs(sign, n);
    MultipleOfWord(ulong);
    ExactWord(Signed(sign, n), n, ulong);
  }

  lemma SignedIs(sign: string, n: nat)
    ensures Signed(sign, n) == n || Signed(sign, n) == 0 - n
  {
  }

  lemma MultipleOfWord(ulong: nat)
    requires ulong > 0 && ulong % U32 == 0
    ensures ulong >= U32
  {
  }

  lemma WordAccepted(text: string, ulong: nat)
    requires ulong > 0 && Strtoul(text, ulong).1 == |text|
    ensures var r := BytesOf(TU32, text, ulong, None);
      r.Ok? && Number(r.value) == Wrapped(Strtoul(text, ulong).0, U32)
  {
    hide Strtoul, Little, Number, Wrapped, Rem32;
    StoredWord(Strtoul(text, ulong).0);
  }

  /** Four bytes hold the value modulo 2^32. */
  lemma StoredWord(v: nat)
    ensures Number(Little(Rem32(v), 4)) == Wrapped(v, U32)
  {
    CapacityOfSizes();
    NumberOfLittle(Rem32(v), 4);
    hide Little, Number;
  }

  /** Both casts together. */
  lemma WordOf(sign: string, n: nat, ulong: nat)
    requires ulong > 0 && ulong % U32 == 0
    ensures n < ulong ==> Wrapped(Wrapped(Signed(sign, n), ulong), U32) == Wrapped(Signed(sign, n), U32)
    ensures Wrapped(ulong - 1, U32) == U32 - 1
  {
    var q := ulong / U32;
    assert ulong == q * U32;
    ModUnique(ulong - 1, U32, q - 1, U32 - 1);
    if n < ulong {
      Wraps(sign, n, ulong);
      if sign == "-" && n > 0 {
        ModShift(0 - n, U32, q);
      }
    }
  }

  lemma ExactWord(z: int, n: nat, ulong: nat)
    requires (z == n || z == 0 - n) && ulong >= U32
    ensures (if n < ulong then Wrapped(z, U32) else U32 - 1) == z <==> 0 <= z < U32
  {
  }
}
