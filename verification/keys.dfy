/**
 * The keystroke log that vim writes with -W, decoded into two-byte keycodes,
 * and the table that renders each keycode as a human-readable token
 * (vimgolf/keys.py).
 */
module Keys {
  import opened Common

  /** A keycode as vim records it: always two bytes. */
  datatype Keycode = Keycode(hi: byte, lo: byte)

  /** The byte that introduces a three-byte entry in the log. */
  const ESCAPE: byte := 0x80

  // ------------------------------------------------------------------
  // to_bytes
  // ------------------------------------------------------------------

  /** x.to_bytes(2, 'big'): the big-endian two-byte form; out of range overflows. */
  function ToBytes(x: int): (r: Option<Keycode>)
    ensures r.Some? <==> 0 <= x < 0x10000
    ensures r.Some? ==> r.value.hi * 256 + r.value.lo == x
  {
    if 0 <= x < 0x10000 then Some(Keycode(x / 256, x % 256)) else None
  }

  /** A single byte becomes the keycode (0x00, b). */
  lemma ToBytesOfByte(b: byte)
    ensures ToBytes(b) == Some(Keycode(0, b))
  {
  }

  // ------------------------------------------------------------------
  // parse_keycodes
  // ------------------------------------------------------------------

  /** The only way decoding fails: an escape byte without its two data bytes. */
  datatype DecodeError = TruncatedEscape

  /** Specification of parse_keycodes, entry by entry from the front. */
  function Decode(raw: seq<byte>): Result<seq<Keycode>, DecodeError>
    decreases |raw|
  {
    if raw == [] then Ok([])
    else if raw[0] == ESCAPE then
      if |raw| < 3 then Err(TruncatedEscape)
      else Prepend([Keycode(raw[1], raw[2])], Decode(raw[3..]))
    else Prepend([Keycode(0, raw[0])], Decode(raw[1..]))
  }

  /** Keycodes already decoded, followed by the outcome of decoding the rest. */
  function Prepend(done: seq<Keycode>, rest: Result<seq<Keycode>, DecodeError>): Result<seq<Keycode>, DecodeError>
  {
    match rest
    case Ok(ks) => Ok(done + ks)
    case Err(e) => Err(e)
  }

  /**
   * parse_keycodes: the source pops bytes off a reversed copy of the log;
   * popping from that copy reads the log front to back, which the index i
   * does here. A pop from the empty copy (a truncated escape) is the error.
   */
  method ParseKeycodes(raw: seq<byte>) returns (r: Result<seq<Keycode>, DecodeError>)
    ensures r == Decode(raw)
  {
    var keycodes: seq<Keycode> := [];
    var i := 0;
    assert raw[0..] == raw;
    assert Prepend([], Decode(raw)) == Decode(raw) by { PrependNil(Decode(raw)); }
    while i < |raw|
      invariant 0 <= i <= |raw|
      invariant Decode(raw) == Prepend(keycodes, Decode(raw[i..]))
    {
      ghost var rest := raw[i..];
      var b0 := raw[i];
      var keycode: Keycode;
      if b0 == ESCAPE {
        if i + 1 >= |raw| || i + 2 >= |raw| {
          assert rest[0] == ESCAPE && |rest| < 3;
          return Err(TruncatedEscape);
        }
        var b1, b2 := raw[i + 1], raw[i + 2];
        keycode := Keycode(b1, b2);
        assert rest[3..] == raw[i + 3..];
        i := i + 3;
      } else {
        ToBytesOfByte(b0);
        keycode := ToBytes(b0).value;
        assert rest[1..] == raw[i + 1..];
        i := i + 1;
      }
      assert Decode(rest) == Prepend([keycode], Decode(raw[i..]));
      PrependAssoc(keycodes, [keycode], Decode(raw[i..]));
      keycodes := keycodes + [keycode];
    }
    assert raw[i..] == [];
    assert keycodes + [] == keycodes;
    return Ok(keycodes);
  }

  lemma PrependNil(r: Result<seq<Keycode>, DecodeError>)
    ensures Prepend([], r) == r
  {
    if r.Ok? {
      assert [] + r.value == r.value;
    }
  }

  lemma PrependAssoc(a: seq<Keycode>, b: seq<Keycode>, r: Result<seq<Keycode>, DecodeError>)
    ensures Prepend(a, Prepend(b, r)) == Prepend(a + b, r)
  {
    if r.Ok? {
      assert a + (b + r.value) == (a + b) + r.value;
    }
  }

  // ------------------------------------------------------------------
  // The log format: what Decode accepts and what it returns
  // ------------------------------------------------------------------

  /** One entry of the log: a byte other than the escape, or the escape and two more bytes. */
  predicate IsEntry(e: seq<byte>) {
    (|e| == 1 && e[0] != ESCAPE) || (|e| == 3 && e[0] == ESCAPE)
  }

  /** The keycode an entry stands for. */
  function EntryKeycode(e: seq<byte>): Keycode
    requires IsEntry(e)
  {
    if |e| == 1 then Keycode(0, e[0]) else Keycode(e[1], e[2])
  }

  function Flatten(es: seq<seq<byte>>): seq<byte>
  {
    if es == [] then [] else es[0] + Flatten(es[1..])
  }

  function EntryKeycodes(es: seq<seq<byte>>): (ks: seq<Keycode>)
    requires forall i :: 0 <= i < |es| ==> IsEntry(es[i])
    ensures |ks| == |es|
    ensures forall i :: 0 <= i < |es| ==> ks[i] == EntryKeycode(es[i])
  {
    if es == [] then [] else [EntryKeycode(es[0])] + EntryKeycodes(es[1..])
  }

  /** Any log made of whole entries decodes to exactly their keycodes, one per entry. */
  lemma {:induction false} DecodeEntries(es: seq<seq<byte>>)
    requires forall i :: 0 <= i < |es| ==> IsEntry(es[i])
    ensures Decode(Flatten(es)) == Ok(EntryKeycodes(es))
  {
    if es != [] {
      DecodeEntries(es[1..]);
      var raw := Flatten(es);
      assert raw == es[0] + Flatten(es[1..]);
      if |es[0]| == 1 {
        assert raw[1..] == Flatten(es[1..]);
      } else {
        assert raw[3..] == Flatten(es[1..]);
      }
    }
  }

  /**
   * A log that decodes is a concatenation of whole entries, one per keycode;
   * so the entry widths (1 or 3) add up to the length of the log.
   */
  lemma {:induction false} DecodedLogIsEntries(raw: seq<byte>) returns (es: seq<seq<byte>>)
    requires Decode(raw).Ok?
    ensures forall i :: 0 <= i < |es| ==> IsEntry(es[i])
    ensures Flatten(es) == raw
    ensures Decode(raw).value == EntryKeycodes(es)
    decreases |raw|
  {
    if raw == [] {
      es := [];
    } else {
      var w := if raw[0] == ESCAPE then 3 else 1;
      var rest := DecodedLogIsEntries(raw[w..]);
      es := [raw[..w]] + rest;
      assert es[1..] == rest;
      assert raw == raw[..w] + raw[w..];
    }
  }

  /** The encoding vim uses for a keycode: one byte when it can, else escaped. */
  function Encode(k: Keycode): (e: seq<byte>)
    ensures IsEntry(e) && EntryKeycode(e) == k
  {
    if k.hi == 0 && k.lo != ESCAPE then [k.lo] else [ESCAPE, k.hi, k.lo]
  }

  function EncodeAll(ks: seq<Keycode>): seq<seq<byte>>
    ensures |EncodeAll(ks)| == |ks|
    ensures forall i :: 0 <= i < |ks| ==> EncodeAll(ks)[i] == Encode(ks[i])
  {
    if ks == [] then [] else [Encode(ks[0])] + EncodeAll(ks[1..])
  }

  /** Every keycode sequence is recovered by decoding its encoding. */
  lemma DecodeEncode(ks: seq<Keycode>)
    ensures Decode(Flatten(EncodeAll(ks))) == Ok(ks)
  {
    var es := EncodeAll(ks);
    DecodeEntries(es);
    assert EntryKeycodes(es) == ks;
  }

  /** A log that starts with a whole entry decodes to that entry's keycode, then the rest. */
  lemma DecodeEntryFirst(e: seq<byte>, rest: seq<byte>)
    requires IsEntry(e)
    ensures Decode(e + rest) == Prepend([EntryKeycode(e)], Decode(rest))
  {
    var s := e + rest;
    assert s[|e|..] == rest;
    if |e| == 3 {
      assert s[1] == e[1] && s[2] == e[2];
    }
  }

  /** Decoding a concatenation whose first part decodes: the keycodes of both parts. */
  lemma {:induction false} DecodeAppend(p: seq<byte>, q: seq<byte>)
    requires Decode(p).Ok?
    ensures Decode(p + q) == Prepend(Decode(p).value, Decode(q))
    decreases |p|
  {
    if p == [] {
      assert p + q == q;
      match Decode(q) {
        case Ok(ks) => assert [] + ks == ks;
        case Err(_) =>
      }
    } else {
      var w := if p[0] == ESCAPE then 3 else 1;
      var e := p[..w];
      assert p == e + p[w..];
      DecodeEntryFirst(e, p[w..]);
      assert p + q == e + (p[w..] + q);
      DecodeEntryFirst(e, p[w..] + q);
      DecodeAppend(p[w..], q);
      PrependAssoc([EntryKeycode(e)], Decode(p[w..]).value, Decode(q));
    }
  }

  /** An escape byte with fewer than two bytes after it, at an entry boundary, fails. */
  lemma TruncatedEscapeFails(p: seq<byte>, tail: seq<byte>)
    requires Decode(p).Ok?
    requires |tail| == 1 || |tail| == 2
    requires tail[0] == ESCAPE
    ensures Decode(p + tail).Err?
  {
    DecodeAppend(p, tail);
  }

  /**
   * Decoding fails only there: the failed log is a decodable prefix followed by
   * a lone escape byte, or an escape byte and one more byte. No partial result
   * is returned.
   */
  lemma {:induction false} DecodeFailureIsTruncation(raw: seq<byte>) returns (k: nat)
    requires Decode(raw).Err?
    ensures |raw| - 2 <= k < |raw| && raw[k] == ESCAPE
    ensures Decode(raw[..k]).Ok?
    decreases |raw|
  {
    if raw[0] == ESCAPE && |raw| < 3 {
      k := 0;
      assert raw[..0] == [];
    } else {
      var w := if raw[0] == ESCAPE then 3 else 1;
      var j := DecodeFailureIsTruncation(raw[w..]);
      k := j + w;
      assert raw[..k][w..] == raw[w..][..j];
    }
  }

  // ------------------------------------------------------------------
  // _KEYCODE_REPR_LOOKUP
  // ------------------------------------------------------------------

  /** A lower-case hexadecimal digit. */
  function HexDigit(d: int): (c: char)
    requires 0 <= d < 16
    ensures ('0' <= c <= '9') || ('a' <= c <= 'f')
  {
    if d < 10 then ('0' as int + d) as char else ('a' as int + d - 10) as char
  }

  /** '{:02x}'.format(b): two lower-case hexadecimal digits. */
  function Hex2(b: byte): (s: string)
    ensures |s| == 2
  {
    [HexDigit(b / 16), HexDigit(b % 16)]
  }

  lemma Hex2Injective(a: byte, b: byte)
    requires Hex2(a) == Hex2(b)
    ensures a == b
  {
    assert HexDigit(a / 16) == HexDigit(b / 16) && HexDigit(a % 16) == HexDigit(b % 16);
  }

  /** What the three range loops write for the single byte b. */
  function RangeRepr(b: byte): string
  {
    if b < 32 then "<C-" + [(b + 64) as char] + ">"
    else if b < 127 then [b as char]
    else "<0x" + Hex2(b) + ">"
  }

  /** The table entry of the single byte b, after the five special names. */
  function SingleByteRepr(b: byte): string
  {
    if b == 9 then "<Tab>"
    else if b == 10 then "<NL>"
    else if b == 13 then "<CR>"
    else if b == 27 then "<Esc>"
    else if b == 127 then "<Del>"
    else RangeRepr(b)
  }

  /**
   * The dictionary literal of named codes that vim writes after an escape
   * byte, arranged by the first byte of the code.
   */
  function NamedKeycode(k: Keycode): Option<string>
  {
    match k.hi
    case 0x6b => (  // 'k'
      match k.lo
      case 0x31 => Some("<F1>")
      case 0x32 => Some("<F2>")
      case 0x33 => Some("<F3>")
      case 0x34 => Some("<F4>")
      case 0x35 => Some("<F5>")
      case 0x36 => Some("<F6>")
      case 0x37 => Some("<F7>")
      case 0x38 => Some("<F8>")
      case 0x39 => Some("<F9>")
      case 0x3b => Some("<F10>")
      case 0x50 => Some("<PageUp>")
      case 0x4e => Some("<PageDown>")
      case 0x68 => Some("<Home>")
      case 0x49 => Some("<Insert>")
      case 0x44 => Some("<Del>")
      case 0x62 => Some("<BS>")
      case 0x75 => Some("<Up>")
      case 0x64 => Some("<Down>")
      case 0x6c => Some("<Left>")
      case 0x72 => Some("<Right>")
      case 0x42 => Some("<S-Tab>")
      case _ => None)
    case 0x46 => (  // 'F'
      match k.lo
      case 0x31 => Some("<F11>")
      case 0x32 => Some("<F12>")
      case 0x33 => Some("<F13>")
      case 0x34 => Some("<F14>")
      case 0x35 => Some("<F15>")
      case 0x36 => Some("<F16>")
      case 0x37 => Some("<F17>")
      case 0x38 => Some("<F18>")
      case 0x39 => Some("<F19>")
      case _ => None)
    case 0x25 => (  // '%'
      match k.lo
      case 0x31 => Some("<Help>")
      case 0x69 => Some("<S-Right>")
      case _ => None)
    case 0x26 => (  // '&'
      match k.lo
      case 0x38 => Some("<Undo>")
      case _ => None)
    case 0x23 => (  // '#'
      match k.lo
      case 0x32 => Some("<S-Home>")
      case 0x34 => Some("<S-Left>")
      case _ => None)
    case 0x2a => (  // '*'
      match k.lo
      case 0x37 => Some("<S-End>")
      case _ => None)
    case 0x4b => (  // 'K'
      match k.lo
      case 0x31 => Some("<kHome>")
      case 0x34 => Some("<kEnd>")
      case 0x33 => Some("<kPageUp>")
      case 0x35 => Some("<kPageDown>")
      case 0x36 => Some("<kPlus>")
      case 0x37 => Some("<kMinus>")
      case 0x38 => Some("<kDivide>")
      case 0x39 => Some("<kMultiply>")
      case 0x41 => Some("<kEnter>")
      case 0x42 => Some("<kPoint>")
      case 0x43 => Some("<k0>")
      case 0x44 => Some("<k1>")
      case 0x45 => Some("<k2>")
      case 0x46 => Some("<k3>")
      case 0x47 => Some("<k4>")
      case 0x48 => Some("<k5>")
      case 0x49 => Some("<k6>")
      case 0x4a => Some("<k7>")
      case 0x4b => Some("<k8>")
      case 0x4c => Some("<k9>")
      case _ => None)
    case 0x40 => (  // '@'
      match k.lo
      case 0x37 => Some("<End>")
      case _ => None)
    case 0xff => (  // 0xff
      match k.lo
      case 0x58 => Some("<C-@>")
      case _ => None)
    case 0xfe => (  // 0xfe
      match k.lo
      case 0x58 => Some("<0x80>")
      case _ => None)
    case 0xfc => (  // 0xfc
      match k.lo
      case 0x02 => Some("<S->")
      case 0x04 => Some("<C->")
      case 0x06 => Some("<C-S->")
      case 0x08 => Some("<A->")
      case 0x0a => Some("<A-S->")
      case 0x0c => Some("<C-A>")
      case 0x0e => Some("<C-A-S->")
      case 0x10 => Some("<M->")
      case 0x12 => Some("<M-S->")
      case 0x14 => Some("<M-C->")
      case 0x16 => Some("<M-C-S->")
      case 0x18 => Some("<M-A->")
      case 0x1a => Some("<M-A-S->")
      case 0x1c => Some("<M-C-A>")
      case 0x1e => Some("<M-C-A-S->")
      case _ => None)
    case 0xfd => (  // 0xfd
      match k.lo
      case 0x04 => Some("<S-Up>")
      case 0x05 => Some("<S-Down>")
      case 0x06 => Some("<S-F1>")
      case 0x07 => Some("<S-F2>")
      case 0x08 => Some("<S-F3>")
      case 0x09 => Some("<S-F4>")
      case 0x0a => Some("<S-F5>")
      case 0x0b => Some("<S-F6>")
      case 0x0c => Some("<S-F7>")
      case 0x0d => Some("<S-F9>")
      case 0x0e => Some("<S-F10>")
      case 0x0f => Some("<S-F10>")
      case 0x10 => Some("<S-F11>")
      case 0x11 => Some("<S-F12>")
      case 0x12 => Some("<S-F13>")
      case 0x13 => Some("<S-F14>")
      case 0x14 => Some("<S-F15>")
      case 0x15 => Some("<S-F16>")
      case 0x16 => Some("<S-F17>")
      case 0x17 => Some("<S-F18>")
      case 0x18 => Some("<S-F19>")
      case 0x19 => Some("<S-F20>")
      case 0x1a => Some("<S-F21>")
      case 0x1b => Some("<S-F22>")
      case 0x1c => Some("<S-F23>")
      case 0x1d => Some("<S-F24>")
      case 0x1e => Some("<S-F25>")
      case 0x1f => Some("<S-F26>")
      case 0x20 => Some("<S-F27>")
      case 0x21 => Some("<S-F28>")
      case 0x22 => Some("<S-F29>")
      case 0x23 => Some("<S-F30>")
      case 0x24 => Some("<S-F31>")
      case 0x25 => Some("<S-F32>")
      case 0x26 => Some("<S-F33>")
      case 0x27 => Some("<S-F34>")
      case 0x28 => Some("<S-F35>")
      case 0x29 => Some("<S-F36>")
      case 0x2a => Some("<S-F37>")
      case 0x2b => Some("<Mouse>")
      case 0x2c => Some("<LeftMouse>")
      case 0x2d => Some("<LeftDrag>")
      case 0x2e => Some("<LeftRelease>")
      case 0x2f => Some("<MiddleMouse>")
      case 0x30 => Some("<MiddleDrag>")
      case 0x31 => Some("<MiddleRelease>")
      case 0x32 => Some("<RightMouse>")
      case 0x33 => Some("<RightDrag>")
      case 0x34 => Some("<RightRelease>")
      case 0x4b => Some("<ScrollWheelUp>")
      case 0x4c => Some("<ScrollWheelDown>")
      case 0x4d => Some("<ScrollWheelRight>")
      case 0x4e => Some("<ScrollWheelLeft>")
      case 0x4f => Some("<kInsert>")
      case 0x50 => Some("<kDel>")
      case 0x55 => Some("<C-Left>")
      case 0x56 => Some("<C-Right>")
      case 0x57 => Some("<C-Home>")
      case 0x58 => Some("<C-End>")
      case _ => None)
    case _ => None
  }

  /** The finished table as a partial function: a named code, else a single byte. */
  function ReprLookup(k: Keycode): Option<string>
  {
    if NamedKeycode(k).Some? then NamedKeycode(k)
    else if k.hi == 0 then Some(SingleByteRepr(k.lo))
    else None
  }

  /** The single-byte part of the table, after the five special names. */
  function SingleByteTable(): map<Keycode, string>
  {
    map b: byte :: Keycode(0, b) := SingleByteRepr(b)
  }

  /** The entries of the named-code literal, as the dictionary update receives them. */
  function NamedTable(): map<Keycode, string>
  {
    map hi: byte, lo: byte | NamedKeycode(Keycode(hi, lo)).Some? :: Keycode(hi, lo) := NamedKeycode(Keycode(hi, lo)).value
  }

  /** _KEYCODE_REPR_LOOKUP: the single bytes, updated with the named codes. */
  function ReprTable(): map<Keycode, string>
  {
    SingleByteTable() + NamedTable()
  }

  /** The dictionary and the partial function agree on every keycode. */
  lemma InReprTable(k: Keycode)
    ensures k in ReprTable() <==> ReprLookup(k).Some?
    ensures k in ReprTable() ==> ReprTable()[k] == ReprLookup(k).value
  {
    assert k == Keycode(k.hi, k.lo);
    assert k in NamedTable() <==> NamedKeycode(k).Some?;
    assert k in SingleByteTable() <==> k.hi == 0;
  }

  /** <Left> is the name of the cursor-left code. */
  lemma LeftName()
    ensures NamedKeycode(Keycode(0x6b, 0x6c)) == Some("<Left>")
  {
  }

  /** Every name of the named-code literal is a value of the dictionary. */
  lemma NamedEntryInTable(k: Keycode)
    requires NamedKeycode(k).Some?
    ensures k in ReprTable() && ReprTable()[k] == NamedKeycode(k).value
    ensures NamedKeycode(k).value in ReprTable().Values
  {
    InReprTable(k);
  }

  /** The table holds exactly the single bytes below x, each with its range entry. */
  ghost predicate RangeTablePrefix(table: map<Keycode, string>, x: int)
  {
    && (forall k :: k in table <==> k.hi == 0 && k.lo < x)
    && (forall k :: k in table ==> table[k] == RangeRepr(k.lo))
  }

  /** The three range loops of the import-time construction. */
  method BuildRangeTable() returns (table: map<Keycode, string>)
    ensures table == map b: byte :: Keycode(0, b) := RangeRepr(b)
  {
    table := map[];
    table := AddControlRange(table);
    table := AddPrintableRange(table);
    table := AddHighRange(table);
    forall k | k in table ensures k == Keycode(0, k.lo) {}
  }

  /** Control characters: the bytes 0 to 31 become <C-@> to <C-_>. */
  method AddControlRange(t: map<Keycode, string>) returns (table: map<Keycode, string>)
    requires RangeTablePrefix(t, 0)
    ensures RangeTablePrefix(table, 32)
  {
    table := t;
    for x := 0 to 32
      invariant RangeTablePrefix(table, x)
    {
      table := table[Keycode(0, x) := "<C-" + [(x + 64) as char] + ">"];
    }
  }

  /** Printable characters: the bytes 32 to 126 stand for themselves. */
  method AddPrintableRange(t: map<Keycode, string>) returns (table: map<Keycode, string>)
    requires RangeTablePrefix(t, 32)
    ensures RangeTablePrefix(table, 127)
  {
    table := t;
    for x := 32 to 127
      invariant RangeTablePrefix(table, x)
    {
      table := table[Keycode(0, x) := [x as char]];
    }
  }

  /** Single byte fallback: the bytes 127 to 255 become <0x7f> to <0xff>. */
  method AddHighRange(t: map<Keycode, string>) returns (table: map<Keycode, string>)
    requires RangeTablePrefix(t, 127)
    ensures RangeTablePrefix(table, 256)
  {
    table := t;
    for x := 127 to 256
      invariant RangeTablePrefix(table, x)
    {
      table := table[Keycode(0, x) := "<0x" + Hex2(x) + ">"];
    }
  }

  /**
   * The import-time construction of the table: three loops over the byte
   * ranges, five special names, then the named codes.
   */
  method BuildReprLookup() returns (table: map<Keycode, string>)
    ensures table == ReprTable()
  {
    table := BuildRangeTable();
    table := AddSpecialNames(table);
    table := table + NamedTable();
  }

  /** Specially named control characters and others, written over the range table. */
  method AddSpecialNames(t: map<Keycode, string>) returns (table: map<Keycode, string>)
    requires t == map b: byte :: Keycode(0, b) := RangeRepr(b)
    ensures table == SingleByteTable()
  {
    table := t;
    table := table[Keycode(0, 9) := "<Tab>"];
    table := table[Keycode(0, 10) := "<NL>"];
    table := table[Keycode(0, 13) := "<CR>"];
    table := table[Keycode(0, 27) := "<Esc>"];
    table := table[Keycode(0, 127) := "<Del>"];
  }

  /** None of the named codes is a single byte: their first byte is never 0x00. */
  lemma NamedCodesAreTwoByte(k: Keycode)
    requires NamedKeycode(k).Some?
    ensures k.hi != 0
  {
  }

  /**
   * Every single-byte keycode has an entry; it is one character long exactly
   * for the printable bytes 32..126, and is then that character.
   */
  lemma SingleByteEntry(b: byte)
    ensures ReprLookup(Keycode(0, b)).Some?
    ensures |ReprLookup(Keycode(0, b)).value| == 1 <==> 32 <= b <= 126
    ensures 32 <= b <= 126 ==> ReprLookup(Keycode(0, b)).value == [b as char]
  {
  }

  /** A token in angle brackets, such as <CR> or <S-F10>. */
  predicate Bracketed(s: string) {
    |s| >= 3 && s[0] == '<' && s[|s| - 1] == '>'
  }

  lemma NamedShapeK(k: Keycode)
    requires k.hi == 0x6b && NamedKeycode(k).Some?
    ensures Bracketed(NamedKeycode(k).value)
  {
  }

  lemma NamedShapeOther(k: Keycode)
    requires k.hi != 0x6b && k.hi != 0xfd && NamedKeycode(k).Some?
    ensures Bracketed(NamedKeycode(k).value)
  {
  }

  lemma NamedShapeFdLow(k: Keycode)
    requires k.hi == 0xfd && k.lo < 0x20 && NamedKeycode(k).Some?
    ensures Bracketed(NamedKeycode(k).value)
  {
  }

  lemma NamedShapeFdMid(k: Keycode)
    requires k.hi == 0xfd && 0x20 <= k.lo < 0x40 && NamedKeycode(k).Some?
    ensures Bracketed(NamedKeycode(k).value)
  {
  }

  lemma NamedShapeFdHigh(k: Keycode)
    requires k.hi == 0xfd && 0x40 <= k.lo && NamedKeycode(k).Some?
    ensures Bracketed(NamedKeycode(k).value)
  {
  }

  /** Every table value is a single character or a bracketed name. */
  lemma TableValueShape(k: Keycode)
    requires ReprLookup(k).Some?
    ensures |ReprLookup(k).value| == 1 || Bracketed(ReprLookup(k).value)
  {
    if NamedKeycode(k).Some? {
      if k.hi == 0x6b {
        NamedShapeK(k);
      } else if k.hi != 0xfd {
        NamedShapeOther(k);
      } else if k.lo < 0x20 {
        NamedShapeFdLow(k);
      } else if k.lo < 0x40 {
        NamedShapeFdMid(k);
      } else {
        NamedShapeFdHigh(k);
      }
    }
  }

  // ------------------------------------------------------------------
  // get_keycode_repr
  // ------------------------------------------------------------------

  /** '[' + '\xNN' per byte + ']' for a keycode the table does not know. */
  function Fallback(k: Keycode): (s: string)
    ensures |s| == 10 && s[0] == '[' && s[9] == ']'
  {
    "[" + "\\x" + Hex2(k.hi) + "\\x" + Hex2(k.lo) + "]"
  }

  /** get_keycode_repr: total; the table entry, or the bracketed hexadecimal fallback. */
  function KeycodeRepr(k: Keycode): (r: string)
    ensures ReprLookup(k).None? ==> |r| == 10 && r[0] == '['
  {
    match ReprLookup(k)
    case Some(v) => v
    case None => Fallback(k)
  }

  /** The rendering is the dictionary's entry when there is one, and the fallback otherwise. */
  lemma KeycodeReprIsTableGet(k: Keycode)
    ensures KeycodeRepr(k) == if k in ReprTable() then ReprTable()[k] else Fallback(k)
  {
    InReprTable(k);
  }

  /** A fallback rendering never coincides with a table value. */
  lemma FallbackNeverTableValue(k: Keycode, t: Keycode)
    requires ReprLookup(t).Some?
    ensures ReprLookup(t).value != Fallback(k)
  {
    TableValueShape(t);
  }

  /** Distinct unmapped keycodes render differently. */
  lemma FallbackInjective(k1: Keycode, k2: Keycode)
    requires Fallback(k1) == Fallback(k2)
    ensures k1 == k2
  {
    assert Fallback(k1)[3..5] == Hex2(k1.hi) && Fallback(k2)[3..5] == Hex2(k2.hi);
    assert Fallback(k1)[7..9] == Hex2(k1.lo) && Fallback(k2)[7..9] == Hex2(k2.lo);
    Hex2Injective(k1.hi, k2.hi);
    Hex2Injective(k1.lo, k2.lo);
  }

  /** An unmapped keycode's rendering is shared with no other keycode. */
  lemma UnmappedRenderingUnique(k1: Keycode, k2: Keycode)
    requires ReprLookup(k1).None? && k1 != k2
    ensures KeycodeRepr(k1) != KeycodeRepr(k2)
  {
    if ReprLookup(k2).Some? {
      FallbackNeverTableValue(k1, k2);
    } else if Fallback(k1) == Fallback(k2) {
      FallbackInjective(k1, k2);
    }
  }

  /** The table is not injective: three tokens each stand for two keycodes. */
  lemma TableNotInjective()
    ensures ReprLookup(Keycode(0, 0x7f)) == ReprLookup(Keycode(0x6b, 0x44)) == Some("<Del>")
    ensures ReprLookup(Keycode(0xfd, 0x0e)) == ReprLookup(Keycode(0xfd, 0x0f)) == Some("<S-F10>")
    ensures ReprLookup(Keycode(0, 0)) == ReprLookup(Keycode(0xff, 0x58)) == Some("<C-@>")
  {
    assert RangeRepr(0) == "<C-@>";
  }

  /** get_keycode_repr applied to each keycode in turn. */
  function RenderAll(ks: seq<Keycode>): (r: seq<string>)
    ensures |r| == |ks|
    ensures forall i :: 0 <= i < |ks| ==> r[i] == KeycodeRepr(ks[i])
  {
    if ks == [] then [] else [KeycodeRepr(ks[0])] + RenderAll(ks[1..])
  }

  /** One entry in front of a decodable log contributes its keycode in front. */
  lemma DecodeCons(e: seq<byte>, rest: seq<byte>)
    requires IsEntry(e) && Decode(rest).Ok?
    ensures Decode(e + rest) == Ok([EntryKeycode(e)] + Decode(rest).value)
  {
    assert (e + rest)[0] == e[0];
    assert (e + rest)[|e|..] == rest;
    if |e| == 3 {
      assert (e + rest)[1] == e[1] && (e + rest)[2] == e[2];
    }
  }

  /** A single-byte keycode renders as its single-byte table entry. */
  lemma SingleByteRender(b: byte)
    ensures KeycodeRepr(Keycode(0, b)) == SingleByteRepr(b)
  {
    assert NamedKeycode(Keycode(0, b)).None?;
  }

  /** The log 5a 5a renders as Z Z. */
  lemma RenderingVectorZZ()
    ensures Decode([0x5a, 0x5a]) == Ok([Keycode(0, 0x5a), Keycode(0, 0x5a)])
    ensures RenderAll(Decode([0x5a, 0x5a]).value) == ["Z", "Z"]
  {
    var z := Keycode(0, 0x5a);
    var one: seq<byte>, two: seq<byte> := [0x5a], [0x5a, 0x5a];
    assert Decode([]) == Ok([]);
    DecodeCons(one, []);
    assert one + [] == one && [z] + [] == [z];
    assert Decode(one) == Ok([z]);
    DecodeCons(one, one);
    assert one + one == two && [z] + [z] == [z, z];
    SingleByteRender(0x5a);
    assert RangeRepr(0x5a) == "Z";
  }

  /** The log 80 6b 31 5a 5a renders as <F1> Z Z. */
  lemma RenderingVectorF1()
    ensures Decode([0x80, 0x6b, 0x31, 0x5a, 0x5a]).Ok?
    ensures RenderAll(Decode([0x80, 0x6b, 0x31, 0x5a, 0x5a]).value) == ["<F1>", "Z", "Z"]
  {
    var z, f1 := Keycode(0, 0x5a), Keycode(0x6b, 0x31);
    var e: seq<byte>, zz: seq<byte>, raw: seq<byte> := [0x80, 0x6b, 0x31], [0x5a, 0x5a], [0x80, 0x6b, 0x31, 0x5a, 0x5a];
    RenderingVectorZZ();
    DecodeCons(e, zz);
    assert e + zz == raw && [f1] + [z, z] == [f1, z, z];
    assert Decode(raw) == Ok([f1, z, z]);
    SingleByteRender(0x5a);
  }

  lemma DecodeControls()
    ensures Decode([0x1b, 0x18, 0x0e, 0x0d]) == Ok([Keycode(0, 0x1b), Keycode(0, 0x18), Keycode(0, 0x0e), Keycode(0, 0x0d)])
  {
    var esc, cx, cn, cr := Keycode(0, 0x1b), Keycode(0, 0x18), Keycode(0, 0x0e), Keycode(0, 0x0d);
    var r0: seq<byte>, r1: seq<byte>, r2: seq<byte>, r3: seq<byte> := [0x0d], [0x0e, 0x0d], [0x18, 0x0e, 0x0d], [0x1b, 0x18, 0x0e, 0x0d];
    assert Decode([]) == Ok([]);
    DecodeCons(r0, []);
    assert r0 + [] == r0 && [cr] + [] == [cr];
    DecodeCons([0x0e], r0);
    assert [0x0e] + r0 == r1 && [cn] + [cr] == [cn, cr];
    DecodeCons([0x18], r1);
    assert [0x18] + r1 == r2 && [cx] + [cn, cr] == [cx, cn, cr];
    DecodeCons([0x1b], r2);
    assert [0x1b] + r2 == r3 && [esc] + [cx, cn, cr] == [esc, cx, cn, cr];
  }

  /** The four single-byte codes of the vector below and their table entries. */
  lemma ControlsRender()
    ensures KeycodeRepr(Keycode(0, 0x1b)) == "<Esc>" && KeycodeRepr(Keycode(0, 0x0d)) == "<CR>"
    ensures KeycodeRepr(Keycode(0, 0x18)) == "<C-X>" && KeycodeRepr(Keycode(0, 0x0e)) == "<C-N>"
  {
    SingleByteRender(0x1b);
    SingleByteRender(0x0d);
    SingleByteRender(0x18);
    assert RangeRepr(0x18) == "<C-X>";
    SingleByteRender(0x0e);
    assert RangeRepr(0x0e) == "<C-N>";
  }

  /** The log 1b 18 0e 0d renders as <Esc> <C-X> <C-N> <CR>. */
  lemma RenderingVectorControls()
    ensures Decode([0x1b, 0x18, 0x0e, 0x0d]).Ok?
    ensures RenderAll(Decode([0x1b, 0x18, 0x0e, 0x0d]).value) == ["<Esc>", "<C-X>", "<C-N>", "<CR>"]
  {
    DecodeControls();
    ControlsRender();
    var r := RenderAll([Keycode(0, 0x1b), Keycode(0, 0x18), Keycode(0, 0x0e), Keycode(0, 0x0d)]);
    assert r[0] == "<Esc>" && r[1] == "<C-X>" && r[2] == "<C-N>" && r[3] == "<CR>";
  }

  // ------------------------------------------------------------------
  // IGNORED_KEYSTROKES
  // ------------------------------------------------------------------

  /** Focus, no-op and cursor-hold events that do not count toward the score. */
  const IGNORED_KEYSTROKES: set<Keycode> := {
    Keycode(0xfd, 0x35),  // KE_IGNORE
    Keycode(0xfd, 0x60),  // KE_CURSORHOLD
    Keycode(0xfd, 0x61),  // KE_NOP
    Keycode(0xfd, 0x62),  // KE_FOCUSGAINED
    Keycode(0xfd, 0x63)   // KE_FOCUSLOST
  }

  /** Exactly five codes, all escaped with first byte 0xfd: no single byte is ever ignored. */
  lemma IgnoredKeystrokesShape(b: byte)
    ensures |IGNORED_KEYSTROKES| == 5
    ensures forall k :: k in IGNORED_KEYSTROKES ==> k.hi == 0xfd
    ensures Keycode(0, b) !in IGNORED_KEYSTROKES
  {
  }
}
