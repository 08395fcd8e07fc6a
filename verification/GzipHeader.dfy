/** Reading the header of a gzip stream, section 2.3 of RFC 1952. */
module GzipHeader {
  import opened Octets

  type Byte = b: int | 0 <= b < 256

  const ID1: Byte := 31
  const ID2: Byte := 139

  predicate Bit(flags: Byte, k: nat)
    requires k < 8
  {
    match k
    case 0 => flags % 2 == 1
    case 1 => flags / 2 % 2 == 1
    case 2 => flags / 4 % 2 == 1
    case 3 => flags / 8 % 2 == 1
    case 4 => flags / 16 % 2 == 1
    case 5 => flags / 32 % 2 == 1
    case 6 => flags / 64 % 2 == 1
    case 7 => flags / 128 == 1
  }

  const FHCRC: nat := 1
  const FEXTRA: nat := 2
  const FNAME: nat := 3
  const FCOMMENT: nat := 4

  datatype Header = Header(method_: Byte, flags: Byte, time: seq<Byte>, extraFlags: Byte, os: Byte,
                           extra: Option<seq<Byte>>, name: Option<seq<Byte>>,
                           comment: Option<seq<Byte>>, crc: Option<seq<Byte>>)

  // ----- the format

  function EncodeFixed(h: Header): seq<Byte> {
    [ID1, ID2, h.method_, h.flags] + h.time + [h.extraFlags, h.os]
  }

  function EncodeExtra(x: Option<seq<Byte>>): seq<Byte>
    requires x.Some? ==> |x.value| < 32768
  {
    match x case None => [] case Some(e) => [|e| % 256, |e| / 256] + e
  }

  function EncodeString(x: Option<seq<Byte>>): seq<Byte> {
    match x case None => [] case Some(s) => s + [0]
  }

  function EncodeCrc(x: Option<seq<Byte>>): seq<Byte> {
    x.GetOr([])
  }

  /** The optional fields are there exactly when their flag is set; XLEN fits a signed 16-bit word. */
  ghost predicate WellFormed(h: Header) {
    && |h.time| == 4
    && (h.extra.Some? <==> Bit(h.flags, FEXTRA)) && (h.extra.Some? ==> |h.extra.value| < 32768)
    && (h.name.Some? <==> Bit(h.flags, FNAME)) && (h.name.Some? ==> 0 !in h.name.value)
    && (h.comment.Some? <==> Bit(h.flags, FCOMMENT)) && (h.comment.Some? ==> 0 !in h.comment.value)
    && (h.crc.Some? <==> Bit(h.flags, FHCRC)) && (h.crc.Some? ==> |h.crc.value| == 2)
  }

  ghost function Encode(h: Header): seq<Byte>
    requires WellFormed(h)
  {
    EncodeFixed(h) + EncodeExtra(h.extra) + EncodeString(h.name) + EncodeString(h.comment) + EncodeCrc(h.crc)
  }

  // ----- the stream

  /** A read-only stream over memory with its cursor. */
  class MemReadStream {
    const data: seq<Byte>
    var pos: nat

    ghost predicate Valid() reads this { pos <= |data| }

    constructor (data: seq<Byte>)
      ensures Valid() && this.data == data && pos == 0
    {
      this.data := data;
      pos := 0;
    }

    /** ReadL into a descriptor of length n; None stands for leaving with end-of-file. */
    method Read(n: nat) returns (r: Option<seq<Byte>>)
      requires Valid()
      modifies this
      ensures Valid()
      ensures r == if old(pos) + n <= |data| then Some(data[old(pos)..old(pos) + n]) else None
      ensures r.Some? ==> pos == old(pos) + n
    {
      if pos + n <= |data| {
        r := Some(data[pos..pos + n]);
        pos := pos + n;
      } else {
        r := None;
      }
    }
  }

  // ----- reading, field by field, from position `pos`

  function ReadExtra(s: seq<Byte>, pos: nat): (r: Option<(seq<Byte>, nat)>)
    ensures r.Some? ==> r.value.1 <= |s|
  {
    if pos + 2 > |s| then None
    else
      var length: int := s[pos] as int + 256 * (s[pos + 1] as int);
      if length >= 32768 || pos + 2 + length > |s| then None
      else Some((s[pos + 2..pos + 2 + length], pos + 2 + length))
  }

  /** The octets before the next NUL; the cursor ends behind the NUL. */
  function ReadString(s: seq<Byte>, pos: nat): (r: Option<(seq<Byte>, nat)>)
    ensures r.Some? ==> r.value.1 <= |s|
    decreases |s| - pos
  {
    if pos >= |s| then None
    else if s[pos] == 0 then Some(([], pos + 1))
    else match ReadString(s, pos + 1)
      case None => None
      case Some((r, end)) => Some(([s[pos]] + r, end))
  }

  function ReadCrc(s: seq<Byte>, pos: nat): Option<(seq<Byte>, nat)> {
    if pos + 2 > |s| then None else Some((s[pos..pos + 2], pos + 2))
  }

  type Reader = (seq<Byte>, nat) -> Option<(seq<Byte>, nat)>

  /** A field that is read only when its flag is set. */
  function ReadIf(flag: bool, read: Reader, s: seq<Byte>, pos: nat): Option<(Option<seq<Byte>>, nat)> {
    if !flag then Some((None, pos))
    else match read(s, pos)
      case None => None
      case Some((x, end)) => Some((Some(x), end))
  }

  /** The header at the front of `s` and where the data starts, or a rejection. */
  function Decode(s: seq<Byte>): Option<(Header, nat)> {
    if |s| < 10 || s[0] != ID1 || s[1] != ID2 then None
    else
      var flags := s[3];
      match ReadIf(Bit(flags, FEXTRA), ReadExtra, s, 10)
      case None => None
      case Some((extra, p1)) =>
        match ReadIf(Bit(flags, FNAME), ReadString, s, p1)
        case None => None
        case Some((name, p2)) =>
          match ReadIf(Bit(flags, FCOMMENT), ReadString, s, p2)
          case None => None
          case Some((comment, p3)) =>
            match ReadIf(Bit(flags, FHCRC), ReadCrc, s, p3)
            case None => None
            case Some((crc, p4)) => Some((Header(s[2], flags, s[4..8], s[8], s[9], extra, name, comment, crc), p4))
  }

  // ----- each field both ways

  /** `x` stands encoded as `code` at `pos` and the reading ends at `end`. */
  ghost predicate Stands(s: seq<Byte>, pos: nat, code: seq<Byte>, end: nat) {
    pos <= end <= |s| && s[pos..end] == code
  }

  lemma ExtraBothWays(s: seq<Byte>, pos: nat, x: seq<Byte>, end: nat)
    ensures ReadExtra(s, pos) == Some((x, end))
            <==> |x| < 32768 && Stands(s, pos, EncodeExtra(Some(x)), end)
  {
    if pos + 2 <= end <= |s| {
      assert s[pos..end] == [s[pos], s[pos + 1]] + s[pos + 2..end];
      if |x| < 32768 && Stands(s, pos, EncodeExtra(Some(x)), end) {
        var code := EncodeExtra(Some(x));
        assert s[pos] == code[0] && s[pos + 1] == code[1];
        assert code[2..] == x && s[pos + 2..end] == s[pos..end][2..];
      }
    }
  }

  lemma {:induction false} StringBothWays(s: seq<Byte>, pos: nat, x: seq<Byte>, end: nat)
    ensures ReadString(s, pos) == Some((x, end)) <==> 0 !in x && Stands(s, pos, EncodeString(Some(x)), end)
    decreases |s| - pos
  {
    if pos < |s| {
      assert pos < end <= |s| ==> s[pos..end][0] == s[pos];
      assert s[pos..pos + 1] == [s[pos]];
      if s[pos] != 0 && x != [] {
        StringBothWays(s, pos + 1, x[1..], end);
        StringShift(s, pos, x, end);
        assert x == [x[0]] + x[1..];
        match ReadString(s, pos + 1) {
          case None =>
          case Some((r, e)) => assert ([s[pos]] + r)[1..] == r;
        }
      } else {
        assert x != [] ==> (x + [0])[0] == x[0] && x[0] in x;
      }
    }
  }

  lemma StringShift(s: seq<Byte>, pos: nat, x: seq<Byte>, end: nat)
    requires pos < |s| && x != []
    ensures Stands(s, pos, x + [0], end) <==> s[pos] == x[0] && Stands(s, pos + 1, x[1..] + [0], end)
  {
    assert x + [0] == [x[0]] + (x[1..] + [0]);
    if pos < end <= |s| {
      assert s[pos..end] == [s[pos]] + s[pos + 1..end];
      assert (s[pos..end])[1..] == s[pos + 1..end] && (x + [0])[1..] == x[1..] + [0];
    }
  }

  lemma CrcBothWays(s: seq<Byte>, pos: nat, x: seq<Byte>, end: nat)
    ensures ReadCrc(s, pos) == Some((x, end)) <==> |x| == 2 && Stands(s, pos, EncodeCrc(Some(x)), end)
  {
  }

  lemma FixedBothWays(s: seq<Byte>, h: Header)
    ensures |s| >= 10 && s[0] == ID1 && s[1] == ID2 && s[2] == h.method_ && s[3] == h.flags
            && s[4..8] == h.time && s[8] == h.extraFlags && s[9] == h.os
            <==> |h.time| == 4 && Stands(s, 0, EncodeFixed(h), 10)
  {
    if |s| >= 10 {
      assert s[0..10] == [s[0], s[1], s[2], s[3]] + s[4..8] + [s[8], s[9]];
      if |h.time| == 4 && Stands(s, 0, EncodeFixed(h), 10) {
        var c := EncodeFixed(h);
        assert s[0..10] == c;
        assert s[0] == c[0] && s[1] == c[1] && s[2] == c[2] && s[3] == c[3] && s[8] == c[8] && s[9] == c[9];
        assert s[4..8] == s[0..10][4..8] && c[4..8] == h.time;
      }
    }
  }

  /** Two codes in a row. */
  lemma StandsInTwo(s: seq<Byte>, a: nat, x: seq<Byte>, y: seq<Byte>, end: nat)
    ensures Stands(s, a, x + y, end) <==> Stands(s, a, x, a + |x|) && Stands(s, a + |x|, y, end)
  {
    var b := a + |x|;
    if b <= end <= |s| {
      assert s[a..end] == s[a..b] + s[b..end];
      assert (x + y)[..|x|] == x && (x + y)[|x|..] == y;
      assert (s[a..b] + s[b..end])[..|x|] == s[a..b] && (s[a..b] + s[b..end])[|x|..] == s[b..end];
    }
  }

  /** Where the fields of `h` would start, one behind the other. */
  ghost predicate AllStand(s: seq<Byte>, h: Header, end: nat)
    requires WellFormed(h)
  {
    var p1 := 10 + |EncodeExtra(h.extra)|;
    var p2 := p1 + |EncodeString(h.name)|;
    var p3 := p2 + |EncodeString(h.comment)|;
    && Stands(s, 0, EncodeFixed(h), 10) && Stands(s, 10, EncodeExtra(h.extra), p1)
    && Stands(s, p1, EncodeString(h.name), p2) && Stands(s, p2, EncodeString(h.comment), p3)
    && Stands(s, p3, EncodeCrc(h.crc), end)
  }

  lemma EncodingStands(s: seq<Byte>, h: Header, end: nat)
    requires WellFormed(h)
    ensures Stands(s, 0, Encode(h), end) <==> AllStand(s, h, end)
  {
    hide Stands, EncodeExtra, EncodeString, EncodeCrc;
    var a, b, e := EncodeFixed(h), EncodeExtra(h.extra), EncodeCrc(h.crc);
    var c, d := EncodeString(h.name), EncodeString(h.comment);
    StandsInTwo(s, 0, a + b + c + d, e, end);
    StandsInTwo(s, 0, a + b + c, d, |a + b + c + d|);
    StandsInTwo(s, 0, a + b, c, |a + b + c|);
    StandsInTwo(s, 0, a, b, |a + b|);
  }

  lemma ExtraField(s: seq<Byte>, flag: bool, pos: nat, x: Option<seq<Byte>>, end: nat)
    requires pos <= |s|
    ensures ReadIf(flag, ReadExtra, s, pos) == Some((x, end))
            <==> (x.Some? <==> flag) && (x.Some? ==> |x.value| < 32768) && Stands(s, pos, EncodeExtra(x), end)
  {
    hide ReadExtra;
    if x.Some? { ExtraBothWays(s, pos, x.value, end); }
    match ReadExtra(s, pos) { case None => case Some((y, e)) => ExtraBothWays(s, pos, y, e); }
    assert s[pos..pos] == [];
  }

  lemma StringField(s: seq<Byte>, flag: bool, pos: nat, x: Option<seq<Byte>>, end: nat)
    requires pos <= |s|
    ensures ReadIf(flag, ReadString, s, pos) == Some((x, end))
            <==> (x.Some? <==> flag) && (x.Some? ==> 0 !in x.value) && Stands(s, pos, EncodeString(x), end)
  {
    hide ReadString;
    if x.Some? { StringBothWays(s, pos, x.value, end); }
    match ReadString(s, pos) { case None => case Some((y, e)) => StringBothWays(s, pos, y, e); }
    assert s[pos..pos] == [];
  }

  lemma CrcField(s: seq<Byte>, flag: bool, pos: nat, x: Option<seq<Byte>>, end: nat)
    requires pos <= |s|
    ensures ReadIf(flag, ReadCrc, s, pos) == Some((x, end))
            <==> (x.Some? <==> flag) && (x.Some? ==> |x.value| == 2) && Stands(s, pos, EncodeCrc(x), end)
  {
    hide ReadCrc;
    if x.Some? { CrcBothWays(s, pos, x.value, end); }
    match ReadCrc(s, pos) { case None => case Some((y, e)) => CrcBothWays(s, pos, y, e); }
    assert s[pos..pos] == [];
  }

  lemma EncodingsDecode(s: seq<Byte>, h: Header, end: nat)
    requires WellFormed(h) && Stands(s, 0, Encode(h), end)
    ensures Decode(s) == Some((h, end))
  {
    hide ReadIf, Bit, EncodeFixed, EncodeExtra, EncodeString, EncodeCrc, Encode;
    EncodingStands(s, h, end);
    FixedBothWays(s, h);
    var p1 := 10 + |EncodeExtra(h.extra)|;
    var p2 := p1 + |EncodeString(h.name)|;
    var p3 := p2 + |EncodeString(h.comment)|;
    ExtraField(s, Bit(h.flags, FEXTRA), 10, h.extra, p1);
    StringField(s, Bit(h.flags, FNAME), p1, h.name, p2);
    StringField(s, Bit(h.flags, FCOMMENT), p2, h.comment, p3);
    CrcField(s, Bit(h.flags, FHCRC), p3, h.crc, end);
  }

  lemma DecodedIsEncoding(s: seq<Byte>, h: Header, end: nat)
    requires Decode(s) == Some((h, end))
    ensures WellFormed(h) && Stands(s, 0, Encode(h), end)
  {
    hide ReadIf, Bit, EncodeFixed, EncodeExtra, EncodeString, EncodeCrc, Encode;
    FixedBothWays(s, h);
    var p1 := ReadIf(Bit(h.flags, FEXTRA), ReadExtra, s, 10).value.1;
    ExtraField(s, Bit(h.flags, FEXTRA), 10, h.extra, p1);
    var p2 := ReadIf(Bit(h.flags, FNAME), ReadString, s, p1).value.1;
    StringField(s, Bit(h.flags, FNAME), p1, h.name, p2);
    var p3 := ReadIf(Bit(h.flags, FCOMMENT), ReadString, s, p2).value.1;
    StringField(s, Bit(h.flags, FCOMMENT), p2, h.comment, p3);
    CrcField(s, Bit(h.flags, FHCRC), p3, h.crc, end);
    EncodingStands(s, h, end);
  }

  /** Reading undoes writing, and nothing else is accepted: a header and an end come out exactly when
      that header's encoding stands at the front and ends there. */
  lemma DecodesExactlyEncodings(s: seq<Byte>, h: Header, end: nat)
    ensures Decode(s) == Some((h, end)) <==> WellFormed(h) && Stands(s, 0, Encode(h), end)
  {
    if WellFormed(h) && Stands(s, 0, Encode(h), end) {
      EncodingsDecode(s, h, end);
    } else if Decode(s) == Some((h, end)) {
      DecodedIsEncoding(s, h, end);
    }
  }

  /** Every proper front part of an encoding is rejected. */
  lemma TruncatedIsRejected(h: Header, n: nat)
    requires WellFormed(h) && n < |Encode(h)|
    ensures Decode(Encode(h)[..n]) == None
  {
    hide Decode, Encode;
    var s := Encode(h);
    if Decode(s[..n]).Some? {
      var (g, end) := Decode(s[..n]).value;
      DecodesExactlyEncodings(s[..n], g, end);
      assert s[..n][0..end] == s[0..end];
      DecodesExactlyEncodings(s, g, end);
      assert s[0..|s|] == s;
      DecodesExactlyEncodings(s, h, |s|);
    }
  }

  /** Bit 1 of the flags stands for the checksum, 2 for the extra field, 3 for the name and 4 for the
      comment. */
  lemma FlagBits(h: Header)
    requires WellFormed(h)
    ensures h.crc.Some? <==> h.flags / 2 % 2 == 1
    ensures h.extra.Some? <==> h.flags / 4 % 2 == 1
    ensures h.name.Some? <==> h.flags / 8 % 2 == 1
    ensures h.comment.Some? <==> h.flags / 16 % 2 == 1
  {
  }

  /** A header with every field, octet by octet: the fixed ones, the extra field behind its length with
      the low octet first, name, comment and checksum. */
  lemma EveryOctet(e: seq<Byte>, data: seq<Byte>)
    requires |e| == 258
    ensures var s := [31, 139, 8, 30, 1, 2, 3, 4, 0, 3] + ([2, 1] + e) + [97, 0] + [98, 0] + [5, 6];
            Decode(s + data)
            == Some((Header(8, 30, [1, 2, 3, 4], 0, 3, Some(e), Some([97]), Some([98]), Some([5, 6])), 276))
  {
    hide Decode, Stands;
    var h := Header(8, 30, [1, 2, 3, 4], 0, 3, Some(e), Some([97]), Some([98]), Some([5, 6]));
    assert WellFormed(h);
    assert EncodeExtra(h.extra) == [2, 1] + e;
    assert EncodeString(h.name) == [97, 0] && EncodeString(h.comment) == [98, 0] && EncodeCrc(h.crc) == [5, 6];
    assert EncodeFixed(h) == [31, 139, 8, 30, 1, 2, 3, 4, 0, 3];
    var s := [31, 139, 8, 30, 1, 2, 3, 4, 0, 3] + ([2, 1] + e) + [97, 0] + [98, 0] + [5, 6];
    assert Encode(h) == s && |s| == 276;
    StandsInFront(s, data);
    EncodingsDecode(s + data, h, 276);
  }

  lemma StandsInFront(s: seq<Byte>, data: seq<Byte>)
    ensures Stands(s + data, 0, s, |s|)
  {
  }

  // ----- the methods

  class GZipBufMgr {
    var input: seq<Byte>
    var offset: nat
    var header: Option<Header>

    /** Construction reads the header and moves the input past it; None stands for leaving. */
    constructor (data: seq<Byte>)
      ensures header == (match Decode(data) case None => None case Some((h, end)) => Some(h))
      ensures match Decode(data)
              case None => input == data
              case Some((h, end)) => offset == end <= |data| && input == data[end..]
    {
      input, offset, header := data, 0, None;
      new;
      hide Decode;
      header := ReadGZipHeader();
      match Decode(data) {
        case None =>
        case Some((h, end)) =>
          DecodedIsEncoding(data, h, end);
          input := input[offset..];
      }
    }

    method ReadGZipHeader() returns (r: Option<Header>)
      modifies this`offset
      ensures match Decode(input)
              case None => r == None
              case Some((h, end)) => r == Some(h) && offset == end
    {
      var memBuf := new MemReadStream(input);
      var fixed := memBuf.Read(10);
      if fixed.None? {
        return None;
      }
      var f := fixed.value;
      if f[0] != ID1 || f[1] != ID2 {
        return None;
      }
      hide Bit, ReadIf;
      var flags := f[3];
      var ok, extra, name, comment, crc;
      ok, extra := ReadExtraIf(Bit(flags, FEXTRA), memBuf);
      if !ok {
        return None;
      }
      ok, name := ReadStringIf(Bit(flags, FNAME), memBuf);
      if !ok {
        return None;
      }
      ok, comment := ReadStringIf(Bit(flags, FCOMMENT), memBuf);
      if !ok {
        return None;
      }
      ok, crc := ReadCrcIf(Bit(flags, FHCRC), memBuf);
      if !ok {
        return None;
      }
      offset := memBuf.pos;
      assert f[4..8] == input[4..8];
      r := Some(Header(f[2], flags, f[4..8], f[8], f[9], extra, name, comment, crc));
    }

    static method ReadExtraIf(flag: bool, memBuf: MemReadStream) returns (ok: bool, x: Option<seq<Byte>>)
      requires memBuf.Valid()
      modifies memBuf
      ensures memBuf.Valid()
      ensures match ReadIf(flag, ReadExtra, memBuf.data, old(memBuf.pos))
              case None => !ok
              case Some((y, end)) => ok && x == y && memBuf.pos == end
    {
      ok, x := true, None;
      if flag {
        x := ReadExtraField(memBuf);
        ok := x.Some?;
      }
    }

    static method ReadStringIf(flag: bool, memBuf: MemReadStream) returns (ok: bool, x: Option<seq<Byte>>)
      requires memBuf.Valid()
      modifies memBuf
      ensures memBuf.Valid()
      ensures match ReadIf(flag, ReadString, memBuf.data, old(memBuf.pos))
              case None => !ok
              case Some((y, end)) => ok && x == y && memBuf.pos == end
    {
      ok, x := true, None;
      if flag {
        x := ReadStringIntoDescriptor(memBuf);
        ok := x.Some?;
      }
    }

    static method ReadCrcIf(flag: bool, memBuf: MemReadStream) returns (ok: bool, x: Option<seq<Byte>>)
      requires memBuf.Valid()
      modifies memBuf
      ensures memBuf.Valid()
      ensures match ReadIf(flag, ReadCrc, memBuf.data, old(memBuf.pos))
              case None => !ok
              case Some((y, end)) => ok && x == y && memBuf.pos == end
    {
      ok, x := true, None;
      if flag {
        x := memBuf.Read(2);
        ok := x.Some?;
      }
    }

    static method ReadExtraField(memBuf: MemReadStream) returns (r: Option<seq<Byte>>)
      requires memBuf.Valid()
      modifies memBuf
      ensures memBuf.Valid()
      ensures match ReadExtra(memBuf.data, old(memBuf.pos))
              case None => r == None
              case Some((x, end)) => r == Some(x) && memBuf.pos == end
    {
      var word := memBuf.Read(2);
      if word.None? {
        return None;
      }
      var length: int := word.value[0] as int + 256 * (word.value[1] as int);
      if length >= 32768 {
        return None;
      }
      r := memBuf.Read(length);
    }

    /** ReadStringIntoDescriptorL: octet by octet up to a NUL. */
    static method ReadStringIntoDescriptor(memBuf: MemReadStream) returns (r: Option<seq<Byte>>)
      requires memBuf.Valid()
      modifies memBuf
      ensures memBuf.Valid()
      ensures match ReadString(memBuf.data, old(memBuf.pos))
              case None => r == None
              case Some((x, end)) => r == Some(x) && memBuf.pos == end
    {
      var bytes: seq<Byte> := [];
      var ch := memBuf.Read(1);
      Unit(ReadString(memBuf.data, old(memBuf.pos)));
      ghost var pos := old(memBuf.pos);
      while ch.Some? && ch.value[0] != 0
        invariant memBuf.Valid() && pos >= old(memBuf.pos)
        invariant ch == if pos < |memBuf.data| then Some(memBuf.data[pos..pos + 1]) else None
        invariant ch.Some? ==> memBuf.pos == pos + 1
        invariant match ReadString(memBuf.data, pos)
                  case None => ReadString(memBuf.data, old(memBuf.pos)) == None
                  case Some((x, end)) => ReadString(memBuf.data, old(memBuf.pos)) == Some((bytes + x, end))
        decreases |memBuf.data| - pos
      {
        Shift(bytes, ch.value[0], ReadString(memBuf.data, pos + 1));
        bytes := bytes + [ch.value[0]];
        pos := pos + 1;
        ch := memBuf.Read(1);
      }
      assert bytes + [] == bytes;
      r := if ch.Some? then Some(bytes) else None;
    }
  }

  lemma Unit(rest: Option<(seq<Byte>, nat)>)
    ensures rest.Some? ==> [] + rest.value.0 == rest.value.0
  {
  }

  lemma Shift(bytes: seq<Byte>, b: Byte, rest: Option<(seq<Byte>, nat)>)
    ensures rest.Some? ==> bytes + ([b] + rest.value.0) == (bytes + [b]) + rest.value.0
  {
  }
}
