/**
 Tag values as text (core/ipc/tag_rpc_plc.c:31-252). strtoul with base 0 is the function of ISO C11,
 section 7.22.1.4, in the "C" locale; `ulong` is ULONG_MAX + 1. What "%f" prints and strtof answers are inputs.
 Strings hold no NUL.
 */
module RpcText {
  import opened TagRuntime
  import opened Tags
  import opened Words

  // ---------------------------------------------------------------- "%u"

  function DigitChar(d: nat): char
    requires d < 10
  {
    '0' + d as char
  }

  /** "%u" */
  function Decimal(n: nat): (s: string)
    ensures s != [] && (forall i :: 0 <= i < |s| ==> '0' <= s[i] <= '9')
    ensures s[0] == '0' <==> n == 0
  {
    if n < 10 then [DigitChar(n)] else Decimal(n / 10) + [DigitChar(n % 10)]
  }

  function Power10(k: nat): nat {
    if k == 0 then 1 else 10 * Power10(k - 1)
  }

  lemma {:induction false} DecimalLength(n: nat, k: nat)
    requires k > 0 && n < Power10(k)
    ensures |Decimal(n)| <= k
  {
    if n >= 10 {
      DecimalLength(n / 10, k - 1);
    }
  }

  /** A 32-bit number always fits the 64-byte value fields of requests and responses. */
  lemma DecimalOfWordFits(n: u32)
    ensures |Decimal(n)| <= 10
  {
    assert Power10(5) == 100_000;
    assert Power10(10) == 100_000 * Power10(5);
    DecimalLength(n, 10);
  }

  // ---------------------------------------------------------------- strtoul

  predicate IsSpace(c: char) {
    c == ' ' || c == '\t' || c == '\n' || c == 11 as char || c == 12 as char || c == '\r'
  }

  /** The value of a digit in any base up to 36; 36 for anything else. */
  function DigitOf(c: char): nat {
    if '0' <= c <= '9' then c as nat - '0' as nat
    else if 'a' <= c <= 'z' then c as nat - 'a' as nat + 10
    else if 'A' <= c <= 'Z' then c as nat - 'A' as nat + 10
    else 36
  }

  /** Length of the longest prefix of white space. */
  function SpaceRun(s: string): (n: nat)
    ensures n <= |s|
  {
    if s != [] && IsSpace(s[0]) then 1 + SpaceRun(s[1..]) else 0
  }

  /** Length of the longest prefix of digits of the base. */
  function DigitRun(s: string, base: nat): (n: nat)
    ensures n <= |s|
  {
    if s != [] && DigitOf(s[0]) < base then 1 + DigitRun(s[1..], base) else 0
  }

  function ValueOf(digits: string, base: nat): nat {
    if digits == [] then 0 else ValueOf(digits[..|digits| - 1], base) * base + DigitOf(digits[|digits| - 1])
  }

  predicate HexPrefix(s: string) {
    |s| >= 3 && s[0] == '0' && (s[1] == 'x' || s[1] == 'X') && DigitOf(s[2]) < 16
  }

  /** The number at the start of `s`, after white space and sign: its value and its length, 0 when there is none. */
  function Unsigned(s: string): (r: (nat, nat))
    ensures r.1 <= |s|
  {
    if HexPrefix(s) then
      var n := DigitRun(s[2..], 16);
      (ValueOf(s[2..2 + n], 16), 2 + n)
    else
      var base := if s != [] && s[0] == '0' then 8 else 10;
      var n := DigitRun(s, base);
      (ValueOf(s[..n], base), n)
  }

  /** strtoul(s, &end, 0): the result, and the position of `end`. */
  function Strtoul(s: string, ulong: nat): (r: (nat, nat))
    requires ulong > 0
    ensures r.0 < ulong && r.1 <= |s|
  {
    var w := SpaceRun(s);
    var signed := w < |s| && (s[w] == '-' || s[w] == '+');
    var at := if signed then w + 1 else w;
    var (v, n) := Unsigned(s[at..]);
    if n == 0 then (0, 0)
    else
      var value := if v >= ulong then ulong - 1 else if signed && s[w] == '-' && v > 0 then ulong - v else v;
      (value, at + n)
  }

  lemma {:induction false} AllDigits(s: string)
    requires forall i :: 0 <= i < |s| ==> '0' <= s[i] <= '9'
    ensures DigitRun(s, 10) == |s|
  {
    if s != [] {
      AllDigits(s[1..]);
    }
  }

  lemma {:induction false} DecimalValue(n: nat)
    ensures ValueOf(Decimal(n), 10) == n
  {
    if n < 10 {
      assert Decimal(n)[..0] == [];
    } else {
      DecimalValue(n / 10);
      assert Decimal(n)[..|Decimal(n)| - 1] == Decimal(n / 10);
    }
  }

  lemma UnsignedReadsDecimal(n: nat)
    ensures Unsigned(Decimal(n)) == (n, |Decimal(n)|)
  {
    var s := Decimal(n);
    if n == 0 {
      assert s == ['0'] && s[1..] == [] && s[..1] == s;
      assert DigitRun(s, 8) == 1 + DigitRun(s[1..], 8);
      assert ValueOf(s, 8) == ValueOf(s[..0], 8) * 8;
    } else {
      AllDigits(s);
      DecimalValue(n);
      assert s[..|s|] == s;
      hide Decimal, ValueOf, DigitRun, DigitOf;
    }
  }

  lemma UnsignedText(s: string, ulong: nat)
    requires ulong > 0 && s != [] && !IsSpace(s[0]) && s[0] != '-' && s[0] != '+'
    ensures Strtoul(s, ulong) ==
      if Unsigned(s).1 == 0 then (0, 0) else (if Unsigned(s).0 < ulong then Unsigned(s).0 else ulong - 1, Unsigned(s).1)
  {
    assert s[0..] == s;
    hide Unsigned, DigitOf;
  }

  /** Base 0 reads back what "%u" printed: only zero starts with the octal prefix. Too large numbers saturate. */
  lemma StrtoulReadsDecimal(n: nat, ulong: nat)
    requires ulong > 0
    ensures Strtoul(Decimal(n), ulong) == (if n < ulong then n else ulong - 1, |Decimal(n)|)
  {
    UnsignedReadsDecimal(n);
    hide Decimal, Unsigned, Strtoul;
    UnsignedText(Decimal(n), ulong);
  }

  // ---------------------------------------------------------------- little-endian values

  lemma DoubleByte(h: byte)
    requires h < 128
    ensures (h + h) as int == 2 * (h as int)
  {
  }

  lemma NextByte(b: byte)
    requires b != 255
    ensures (b + 1) as int == b as int + 1
  {
  }

  lemma SmallByte(h: byte, d: nat)
    requires h as int == d
    ensures d < 128 ==> h < 128
    ensures d < 255 ==> h != 255
  {
  }

  /** The byte with value `d`, from its binary digits. */
  function Cast8(d: nat): (b: byte)
    requires d < 256
    ensures b as int == d
  {
    if d == 0 then 0
    else
      var h := Cast8(d / 2);
      SmallByte(h, d / 2);
      DoubleByte(h);
      SmallByte(h + h, d / 2 * 2);
      NextByte(h + h);
      if d % 2 == 0 then h + h else h + h + 1
  }

  lemma SameByte(b: byte, c: byte)
    requires b as int == c as int
    ensures b == c
  {
  }

  function ByteOf(n: nat): byte {
    Cast8(n % 256)
  }

  function Little(n: nat, size: nat): (b: seq<byte>)
    ensures |b| == size
  {
    if size == 0 then [] else [ByteOf(n)] + Little(n / 256, size - 1)
  }

  function Number(b: seq<byte>): nat {
    if b == [] then 0 else b[0] as int + 256 * Number(b[1..])
  }

  function Capacity(size: nat): (c: nat)
    ensures c > 0
  {
    if size == 0 then 1 else 256 * Capacity(size - 1)
  }

  lemma ByteOfSum(b: byte, rest: nat)
    ensures ByteOf(b as int + 256 * rest) == b
    ensures (b as int + 256 * rest) / 256 == rest
  {
    assert (b as int + 256 * rest) % 256 == b as int;
    hide Cast8;
    SameByte(ByteOf(b as int + 256 * rest), b);
  }

  lemma {:induction false} NumberOfLittle(n: nat, size: nat)
    requires n < Capacity(size)
    ensures Number(Little(n, size)) == n
  {
    if size > 0 {
      NumberOfLittle(n / 256, size - 1);
      assert ByteOf(n) as int == n % 256;
      hide ByteOf;
      assert Little(n, size)[1..] == Little(n / 256, size - 1);
    }
  }

  lemma {:induction false} LittleOfNumber(b: seq<byte>)
    ensures Number(b) < Capacity(|b|) && Little(Number(b), |b|) == b
  {
    if b != [] {
      LittleOfNumber(b[1..]);
      ByteOfSum(b[0], Number(b[1..]));
      hide ByteOf;
    }
  }

  // ---------------------------------------------------------------- BOOL as text

  function Lower(c: char): char {
    if 'A' <= c <= 'Z' then c - 'A' + 'a' else c
  }

  ghost predicate EqNoCase(a: string, b: string) {
    |a| == |b| && forall i :: 0 <= i < |a| ==> Lower(a[i]) == Lower(b[i])
  }

  /** str_eq_nocase */
  method StrEqNoCase(a: string, b: string) returns (eq: bool)
    ensures eq <==> EqNoCase(a, b)
  {
    var i := 0;
    while i < |a| && i < |b|
      invariant 0 <= i <= |a| && i <= |b|
      invariant forall k :: 0 <= k < i ==> Lower(a[k]) == Lower(b[k])
    {
      if Lower(a[i]) != Lower(b[i]) {
        return false;
      }
      i := i + 1;
    }
    eq := i == |a| && i == |b|;
  }

  ghost function BoolOfText(s: string): Option<bool> {
    if s == "0" || EqNoCase(s, "false") then Some(false)
    else if s == "1" || EqNoCase(s, "true") then Some(true)
    else None
  }

  /** The accepted spellings, letter by letter. */
  lemma BoolTextIs(s: string)
    ensures BoolOfText(s) == Some(true) <==>
        s == "1" || (|s| == 4 && s[0] in "tT" && s[1] in "rR" && s[2] in "uU" && s[3] in "eE")
    ensures BoolOfText(s) == Some(false) <==>
        s == "0" || (|s| == 5 && s[0] in "fF" && s[1] in "aA" && s[2] in "lL" && s[3] in "sS" && s[4] in "eE")
  {
    if |s| == 4 {
      LettersOf(s, "true");
    } else if |s| == 5 {
      LettersOf(s, "false");
    }
  }

  lemma LettersOf(s: string, word: string)
    requires |s| == |word| && (word == "true" || word == "false")
    ensures EqNoCase(s, word) <==> forall i :: 0 <= i < |s| ==> s[i] == word[i] || s[i] == word[i] - 'a' + 'A'
  {
    forall i | 0 <= i < |s| ensures Lower(s[i]) == Lower(word[i]) <==> s[i] == word[i] || s[i] == word[i] - 'a' + 'A' {
    }
  }

  /** parse_bool_value; its four tests exclude each other, so their order does not matter. */
  method ParseBoolValue(s: string) returns (r: Option<bool>)
    ensures r == BoolOfText(s)
  {
    if s == "0" {
      return Some(false);
    }
    if s == "1" {
      return Some(true);
    }
    var eq := StrEqNoCase(s, "true");
    if eq {
      return Some(true);
    }
    eq := StrEqNoCase(s, "false");
    if eq {
      return Some(false);
    }
    r := None;
  }

  // ---------------------------------------------------------------- printing and parsing a value

  /** The cast to uint32_t. */
  function Rem32(v: nat): u32 {
    v % U32
  }

  lemma SmallRemainder(v: nat)
    ensures Rem32(v) == v <==> v < U32
  {
  }

  /** What handle_read prints for the bytes of a value. */
  function TextOf(typ: TagType, bytes: seq<byte>, realText: string): string
  {
    match typ
    case TBool => if bytes != [] && bytes[0] != 0 then "1" else "0"
    case TReal => realText
    case _ => Decimal(Number(bytes))
  }

  /** What handle_write makes of a text: the bytes it passes to tag_write, or the error. */
  ghost function BytesOf(typ: TagType, text: string, ulong: nat, float: Option<Bytes4>): Result<seq<byte>>
    requires ulong > 0
  {
    var (v, end) := Strtoul(text, ulong);
    match typ
    case TBool =>
      (match BoolOfText(text)
       case Some(b) => Ok([if b then 1 else 0])
       case None => Err(EINVAL))
    case TU8 => if end < |text| then Err(EINVAL) else if v > 0xFF then Err(ERANGE) else Ok(Little(v, 1))
    case TU16 => if end < |text| then Err(EINVAL) else if v > 0xFFFF then Err(ERANGE) else Ok(Little(v, 2))
    case TU32 => if end < |text| then Err(EINVAL) else Ok(Little(Rem32(v), 4))
    case TReal => if float.Some? then Ok(float.value) else Err(EINVAL)
    case TOther => Err(EINVAL)
  }

  /** Text round trip: what READ prints is accepted by WRITE and means the same bytes. */
  lemma TextRoundTrip(typ: TagType, bytes: seq<byte>, ulong: nat, realText: string, float: Option<Bytes4>)
    requires typ != TReal && typ != TOther && |bytes| == TypeSize(typ) && ulong >= U32
    requires typ == TBool ==> bytes[0] == 0 || bytes[0] == 1
    ensures BytesOf(typ, TextOf(typ, bytes, realText), ulong, float) == Ok(bytes)
  {
    if typ == TBool {
      BoolTexts();
      assert bytes == [bytes[0]];
    } else {
      var n := Number(bytes);
      LittleOfNumber(bytes);
      CapacityOfSizes();
      StrtoulReadsDecimal(n, ulong);
      SmallRemainder(n);
      hide Strtoul, Decimal, Number, Little, Capacity, BoolOfText, EqNoCase, Rem32;
    }
  }

  lemma BoolTexts()
    ensures BoolOfText("0") == Some(false) && BoolOfText("1") == Some(true)
  {
    assert Lower("1"[0]) != Lower("t"[0]);
  }

  lemma CapacityOfSizes()
    ensures Capacity(1) == 0x100 && Capacity(2) == 0x1_0000 && Capacity(4) == U32
  {
    assert Capacity(2) == 256 * Capacity(1);
    assert Capacity(4) == 256 * Capacity(3) && Capacity(3) == 256 * Capacity(2);
  }

  // ---------------------------------------------------------------- replies

  datatype Response = Response(id: u32, status: int, typ: string, value: string, msg: string)

  function TypeName(typ: TagType): string {
    match typ
    case TBool => "BOOL"
    case TU8 => "U8"
    case TU16 => "U16"
    case TU32 => "U32"
    case TReal => "REAL"
    case TOther => "UNKNOWN"
  }

  /** set_error_response */
  function ErrorResponse(id: u32, status: int, msg: string): Response {
    Response(id, status, "", "", msg)
  }

  /** handle_read for the tag `id` whose own entry has type `typ`. */
  function ReadReply(table: seq<Entry>, mem: Memory, typ: TagType, id: nat, reqId: u32, realText: string): Response {
    if typ == TOther then ErrorResponse(reqId, EINVAL, "read_failed")
    else
      match ReadTag(table, mem, id, TypeSize(typ))
      case Err(code) => ErrorResponse(reqId, code, "read_failed")
      case Ok(bytes) =>
        Response(reqId, 0, TypeName(typ), TextOf(typ, bytes, realText), "")
  }

  /** handle_write: the reply and the memory after it. */
  ghost function WriteReply(table: seq<Entry>, mem: Memory, typ: TagType, id: nat, reqId: u32, text: string,
    ulong: nat, float: Option<Bytes4>, junk: Bytes4): (Response, Memory)
    requires ulong > 0
  {
    match BytesOf(typ, text, ulong, float)
    case Err(code) => (ErrorResponse(reqId, code, "write_failed"), mem)
    case Ok(bytes) =>
      match WriteTag(table, mem, id, bytes, junk)
      case Err(code) => (ErrorResponse(reqId, code, "write_failed"), mem)
      case Ok(after) => (Response(reqId, 0, "", "", ""), after)
  }

  /** handle_read */
  method HandleRead(rt: Runtime, typ: TagType, id: nat, reqId: u32, realText: string) returns (rsp: Response)
    requires rt.Valid()
    ensures rsp == ReadReply(rt.Table(), rt.Mem(), typ, id, reqId, realText)
  {
    if typ == TOther {
      return ErrorResponse(reqId, EINVAL, "read_failed");
    }
    var r := rt.TagRead(id, TypeSize(typ));
    hide ReadTag, Decimal, Number;
    match r
    case Err(code) =>
      rsp := ErrorResponse(reqId, code, "read_failed");
    case Ok(bytes) =>
      rsp := Response(reqId, 0, TypeName(typ), TextOf(typ, bytes, realText), "");
  }

  /** The switch of handle_write up to the calls of tag_write. */
  method ParseValue(typ: TagType, text: string, ulong: nat, float: Option<Bytes4>) returns (r: Result<seq<byte>>)
    requires ulong > 0
    ensures r == BytesOf(typ, text, ulong, float)
  {
    hide Strtoul, Little;
    match typ
    case TBool =>
      var b := ParseBoolValue(text);
      r := if b.Some? then Ok([if b.value then 1 else 0]) else Err(EINVAL);
    case TReal =>
      r := if float.Some? then Ok(float.value) else Err(EINVAL);
    case TOther =>
      r := Err(EINVAL);
    case TU8 =>
      var (v, end) := Strtoul(text, ulong);
      r := if end < |text| then Err(EINVAL) else if v > 0xFF then Err(ERANGE) else Ok(Little(v, 1));
    case TU16 =>
      var (v, end) := Strtoul(text, ulong);
      r := if end < |text| then Err(EINVAL) else if v > 0xFFFF then Err(ERANGE) else Ok(Little(v, 2));
    case TU32 =>
      var (v, end) := Strtoul(text, ulong);
      r := if end < |text| then Err(EINVAL) else Ok(Little(Rem32(v), 4));
  }

  lemma WriteErrorIsNotZero(table: seq<Entry>, mem: Memory, id: nat, input: seq<byte>, junk: Bytes4)
    ensures var r := WriteTag(table, mem, id, input, junk); r.Err? ==> r.code != 0
  {
    hide Resolve, Updated, IoInRange;
  }

  /** handle_write */
  method HandleWrite(rt: Runtime, typ: TagType, id: nat, reqId: u32, text: string, ulong: nat,
      float: Option<Bytes4>, junk: Bytes4)
    returns (rsp: Response)
    requires rt.Valid() && ulong > 0
    modifies rt`outputs, rt.procValues, rt.hmiValues
    ensures rt.Valid() && rt.Table() == old(rt.Table())
    ensures (rsp, rt.Mem()) == WriteReply(old(rt.Table()), old(rt.Mem()), typ, id, reqId, text, ulong, float, junk)
  {
    hide BytesOf, WriteTag;
    var bytes := ParseValue(typ, text, ulong, float);
    if bytes.Err? {
      return ErrorResponse(reqId, bytes.code, "write_failed");
    }
    WriteErrorIsNotZero(rt.Table(), rt.Mem(), id, bytes.value, junk);
    var rc := rt.TagWrite(id, bytes.value, junk);
    rsp := if rc != 0 then ErrorResponse(reqId, rc, "write_failed") else Response(reqId, 0, "", "", "");
  }
}
