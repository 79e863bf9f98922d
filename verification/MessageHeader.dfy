/** The twelve octets in front of every message (section 4.1.1 of RFC 1035). */
module MessageHeaders {
  import opened Bytes
  import opened Compression

  /** The flag word, cut into the fields of section 4.1.1. */
  datatype Fields = Fields(qr: bool, opcode: nat, aa: bool, tc: bool, rd: bool, ra: bool, z: nat, rcode: nat)
  {
    predicate Valid() {
      opcode < 16 && z < 8 && rcode < 16
    }
  }

  type Flags = f: Fields | f.Valid() witness Fields(false, 0, false, false, false, false, 0, 0)

  datatype Header = Header(id: uint16, flags: Flags, qdcount: uint16, ancount: uint16, nscount: uint16, arcount: uint16)

  datatype Rcode = OK | FORMAT_ERROR | SERVER_FAILURE | NAME_ERROR | NOT_IMPLEMENTED | REFUSED
  {
    function Code(): nat {
      match this
      case OK => 0
      case FORMAT_ERROR => 1
      case SERVER_FAILURE => 2
      case NAME_ERROR => 3
      case NOT_IMPLEMENTED => 4
      case REFUSED => 5
    }
  }

  function Bit(on: bool): nat {
    if on then 1 else 0
  }

  function Word(f: Flags): (w: uint16) {
    Bit(f.qr) * 0x8000 + f.opcode * 0x800 + Bit(f.aa) * 0x400 + Bit(f.tc) * 0x200
    + Bit(f.rd) * 0x100 + Bit(f.ra) * 0x80 + f.z * 16 + f.rcode
  }

  function FlagsOf(w: uint16): Flags {
    Fields(w / 0x8000 == 1, w / 0x800 % 16, w / 0x400 % 2 == 1, w / 0x200 % 2 == 1,
           w / 0x100 % 2 == 1, w / 0x80 % 2 == 1, w / 16 % 8, w % 16)
  }

  function ReadHeader(b: bytes): Header
    requires HEADER_SIZE <= |b|
  {
    Header(GetU16(b, 0), FlagsOf(GetU16(b, 2)), GetU16(b, 4), GetU16(b, 6), GetU16(b, 8), GetU16(b, 10))
  }

  function PrintHeader(h: Header): (r: bytes)
    ensures |r| == HEADER_SIZE
  {
    U16(h.id) + U16(Word(h.flags)) + U16(h.qdcount) + U16(h.ancount) + U16(h.nscount) + U16(h.arcount)
  }

  lemma Halve(x: nat, k: nat)
    requires k == 0x80 || k == 0x100 || k == 0x200 || k == 0x400
    ensures x / (2 * k) == x / k / 2
  {
    if k == 0x80 {
      assert x / 0x100 == x / 0x80 / 2;
    } else if k == 0x100 {
      assert x / 0x200 == x / 0x100 / 2;
    } else if k == 0x200 {
      assert x / 0x400 == x / 0x200 / 2;
    } else {
      assert x / 0x800 == x / 0x400 / 2;
    }
  }

  /** The quotients and remainders that isolate the fields of a packed word. */
  lemma Unpack(q: nat, op: nat, a: nat, t: nat, d: nat, u: nat, low: nat, w: nat)
    requires q < 2 && op < 16 && a < 2 && t < 2 && d < 2 && u < 2 && low < 0x80
    requires w == q * 0x8000 + op * 0x800 + a * 0x400 + t * 0x200 + d * 0x100 + u * 0x80 + low
    ensures w / 0x8000 == q && w / 0x800 % 16 == op && w / 0x400 % 2 == a && w / 0x200 % 2 == t
    ensures w / 0x100 % 2 == d && w / 0x80 % 2 == u && w % 0x80 == low
  {
    var w0 := q * 16 + op;
    var w1 := w0 * 2 + a;
    var w2 := w1 * 2 + t;
    var w3 := w2 * 2 + d;
    var w4 := w3 * 2 + u;
    Rest128(w, w4, low);
    assert w / 0x80 == w4;
    assert w / 0x100 == w3 by { Halve(w, 0x80); }
    assert w / 0x200 == w2 by { Halve(w, 0x100); }
    assert w / 0x400 == w1 by { Halve(w, 0x200); }
    assert w / 0x800 == w0 by { Halve(w, 0x400); }
    assert w / 0x8000 == w0 / 16 by { assert w / 0x8000 == w / 0x800 / 16; }
  }

  lemma UnpackLow(w: nat, low: nat, z: nat, r: nat)
    requires w % 0x80 == low == z * 16 + r && z < 8 && r < 16
    ensures w / 16 % 8 == z && w % 16 == r
  {
    var h := w / 0x80;
    assert w == (h * 8 + z) * 16 + r;
    assert w / 16 == h * 8 + z;
  }

  /** No two fields share a bit: every field is read back from the word it was packed into. */
  lemma FlagsOfWord(f: Flags)
    ensures FlagsOf(Word(f)) == f
  {
    var low := f.z * 16 + f.rcode;
    Unpack(Bit(f.qr), f.opcode, Bit(f.aa), Bit(f.tc), Bit(f.rd), Bit(f.ra), low, Word(f));
    UnpackLow(Word(f), low, f.z, f.rcode);
  }

  /** The same read backwards: halving seven times over and putting the remainders together again. */
  lemma Repack(w: nat, w4: nat, w3: nat, w2: nat, w1: nat, w0: nat, q: nat)
    requires w4 == w / 0x80 && w3 == w4 / 2 && w2 == w3 / 2 && w1 == w2 / 2 && w0 == w1 / 2 && q == w0 / 16
    ensures w ==
            q * 0x8000 + w0 % 16 * 0x800 + w1 % 2 * 0x400 + w2 % 2 * 0x200 + w3 % 2 * 0x100 + w4 % 2 * 0x80 + w % 0x80
  {
    assert w == w4 * 0x80 + w % 0x80;
    assert w4 == w3 * 2 + w4 % 2 && w3 == w2 * 2 + w3 % 2 && w2 == w1 * 2 + w2 % 2 && w1 == w0 * 2 + w1 % 2;
    assert w0 == q * 16 + w0 % 16;
  }

  lemma Rest128(w: nat, q: nat, r: nat)
    requires w == q * 0x80 + r && r < 0x80
    ensures w % 0x80 == r
  {
  }

  lemma RepackLow(w: nat)
    ensures w % 0x80 == w / 16 % 8 * 16 + w % 16
  {
    var h := w / 16;
    assert w == h * 16 + w % 16 && h == h / 8 * 8 + h % 8;
    Rest128(w, h / 8, h % 8 * 16 + w % 16);
  }

  lemma Eighths(w: nat)
    ensures w / 0x8000 == w / 0x800 / 16
  {
  }

  lemma WordIs(w: uint16)
    ensures Word(FlagsOf(w)) ==
            w / 0x8000 * 0x8000 + w / 0x800 % 16 * 0x800 + w / 0x400 % 2 * 0x400 + w / 0x200 % 2 * 0x200
                                + w / 0x100 % 2 * 0x100 + w / 0x80 % 2 * 0x80 + w / 16 % 8 * 16 + w % 16
  {
    BitOf(w / 0x8000);
    BitOf(w / 0x400 % 2);
    BitOf(w / 0x200 % 2);
    BitOf(w / 0x100 % 2);
    BitOf(w / 0x80 % 2);
    hide Bit;
  }

  /** A word is the packing of its fields: the fields cover all sixteen bits. */
  lemma WordOfFlags(w: uint16)
    ensures Word(FlagsOf(w)) == w
  {
    hide Word, FlagsOf;
    WordIs(w);
    Halve(w, 0x80);
    Halve(w, 0x100);
    Halve(w, 0x200);
    Halve(w, 0x400);
    Eighths(w);
    Repack(w, w / 0x80, w / 0x100, w / 0x200, w / 0x400, w / 0x800, w / 0x8000);
    RepackLow(w);
  }

  lemma BitOf(n: nat)
    requires n < 2
    ensures Bit(n == 1) == n
  {
  }

  /** word & ~mask, and then word | mask if the bit is to be on; `mask` is a single bit. */
  function WithBit(word: uint16, mask: nat, on: bool): int
    requires mask > 0
  {
    word - word / mask % 2 * mask + Bit(on) * mask
  }

  /** word & ~0xF | (code & 0xF) */
  function WithCode(word: uint16, code: nat): int {
    word - word % 16 + code % 16
  }

  /** Every flag has its own place in the sum. */
  lemma WordWithQr(f: Flags, on: bool)
    ensures Word(f.(qr := on)) == Word(f) + (Bit(on) - Bit(f.qr)) * 0x8000
  {
    var g := f.(qr := on);
    assert Word(g) - Bit(g.qr) * 0x8000 == Word(f) - Bit(f.qr) * 0x8000;
  }

  lemma WordWithAa(f: Flags, on: bool)
    ensures Word(f.(aa := on)) == Word(f) + (Bit(on) - Bit(f.aa)) * 0x400
  {
    var g := f.(aa := on);
    assert Word(g) - Bit(g.aa) * 0x400 == Word(f) - Bit(f.aa) * 0x400;
  }

  lemma WordWithTc(f: Flags, on: bool)
    ensures Word(f.(tc := on)) == Word(f) + (Bit(on) - Bit(f.tc)) * 0x200
  {
    var g := f.(tc := on);
    assert Word(g) - Bit(g.tc) * 0x200 == Word(f) - Bit(f.tc) * 0x200;
  }

  lemma WordWithRa(f: Flags, on: bool)
    ensures Word(f.(ra := on)) == Word(f) + (Bit(on) - Bit(f.ra)) * 0x80
  {
    var g := f.(ra := on);
    assert Word(g) - Bit(g.ra) * 0x80 == Word(f) - Bit(f.ra) * 0x80;
  }

  /** Clearing and setting one bit of the word changes that flag and no other field. */
  lemma BitIsQr(w: uint16, on: bool)
    ensures WithBit(w, 0x8000, on) == Word(FlagsOf(w).(qr := on))
  {
    WordOfFlags(w);
    WordWithQr(FlagsOf(w), on);
    hide Word;
    BitOf(w / 0x8000 % 2);
    assert w / 0x8000 % 2 == w / 0x8000;
  }

  lemma BitIsAa(w: uint16, on: bool)
    ensures WithBit(w, 0x400, on) == Word(FlagsOf(w).(aa := on))
  {
    WordOfFlags(w);
    WordWithAa(FlagsOf(w), on);
    hide Word;
    BitOf(w / 0x400 % 2);
  }

  lemma BitIsTc(w: uint16, on: bool)
    ensures WithBit(w, 0x200, on) == Word(FlagsOf(w).(tc := on))
  {
    WordOfFlags(w);
    WordWithTc(FlagsOf(w), on);
    hide Word;
    BitOf(w / 0x200 % 2);
  }

  lemma BitIsRa(w: uint16, on: bool)
    ensures WithBit(w, 0x80, on) == Word(FlagsOf(w).(ra := on))
  {
    WordOfFlags(w);
    WordWithRa(FlagsOf(w), on);
    hide Word;
    BitOf(w / 0x80 % 2);
  }

  lemma CodeIsField(w: uint16, code: nat)
    requires code < 16
    ensures WithCode(w, code) == Word(FlagsOf(w).(rcode := code))
  {
    WordOfFlags(w);
  }

  /** Writing a header over the first octets of a message and reading it again gives the header. */
  lemma HeaderRoundTrip(h: Header, b: bytes)
    requires HEADER_SIZE <= |b|
    ensures ReadHeader(Patch(b, 0, PrintHeader(h))) == h
    ensures forall i :: HEADER_SIZE <= i < |b| ==> Patch(b, 0, PrintHeader(h))[i] == b[i]
  {
    var p := PrintHeader(h);
    var r := Patch(b, 0, p);
    assert forall i :: 0 <= i < HEADER_SIZE ==> r[i] == p[i];
    FlagsOfWord(h.flags);
    assert p[0..2] == U16(h.id) && p[2..4] == U16(Word(h.flags)) && p[4..6] == U16(h.qdcount);
    assert p[6..8] == U16(h.ancount) && p[8..10] == U16(h.nscount) && p[10..12] == U16(h.arcount);
    assert p[0] == U16(h.id)[0] && p[1] == U16(h.id)[1];
    assert p[2] == U16(Word(h.flags))[0] && p[3] == U16(Word(h.flags))[1];
    assert p[4] == U16(h.qdcount)[0] && p[5] == U16(h.qdcount)[1];
    assert p[6] == U16(h.ancount)[0] && p[7] == U16(h.ancount)[1];
    assert p[8] == U16(h.nscount)[0] && p[9] == U16(h.nscount)[1];
    assert p[10] == U16(h.arcount)[0] && p[11] == U16(h.arcount)[1];
  }

  class MessageHeader {
    var id: uint16
    var flags: uint16
    var qdcount: uint16
    var ancount: uint16
    var nscount: uint16
    var arcount: uint16

    function View(): Header
      reads this
    {
      Header(id, FlagsOf(flags), qdcount, ancount, nscount, arcount)
    }

    constructor Parse(buffer: bytes)
      requires HEADER_SIZE <= |buffer|
      ensures View() == ReadHeader(buffer)
    {
      id := GetU16(buffer, 0);
      flags := GetU16(buffer, 2);
      qdcount := GetU16(buffer, 4);
      ancount := GetU16(buffer, 6);
      nscount := GetU16(buffer, 8);
      arcount := GetU16(buffer, 10);
    }

    constructor Copy(v: MessageHeader)
      ensures View() == v.View()
    {
      id, flags := v.id, v.flags;
      qdcount, ancount, nscount, arcount := v.qdcount, v.ancount, v.nscount, v.arcount;
    }

    function GetQr(): (r: bool)
      reads this
      ensures r == View().flags.qr
    {
      flags / 0x8000 % 2 == 1
    }

    function GetOpcode(): (r: nat)
      reads this
      ensures r == View().flags.opcode
    {
      flags / 0x800 % 16
    }

    method SetQr(qr: bool)
      modifies this`flags
      ensures View() == old(View()).(flags := old(View()).flags.(qr := qr))
    {
      BitIsQr(flags, qr);
      hide FlagsOf, Word, WithBit;
      FlagsOfWord(FlagsOf(flags).(qr := qr));
      flags := WithBit(flags, 0x8000, qr);
    }

    method SetTc(tc: bool)
      modifies this`flags
      ensures View() == old(View()).(flags := old(View()).flags.(tc := tc))
    {
      BitIsTc(flags, tc);
      hide FlagsOf, Word, WithBit;
      FlagsOfWord(FlagsOf(flags).(tc := tc));
      flags := WithBit(flags, 0x200, tc);
    }

    method SetRa(ra: bool)
      modifies this`flags
      ensures View() == old(View()).(flags := old(View()).flags.(ra := ra))
    {
      BitIsRa(flags, ra);
      hide FlagsOf, Word, WithBit;
      FlagsOfWord(FlagsOf(flags).(ra := ra));
      flags := WithBit(flags, 0x80, ra);
    }

    method SetAa(aa: bool)
      modifies this`flags
      ensures View() == old(View()).(flags := old(View()).flags.(aa := aa))
    {
      BitIsAa(flags, aa);
      hide FlagsOf, Word, WithBit;
      FlagsOfWord(FlagsOf(flags).(aa := aa));
      flags := WithBit(flags, 0x400, aa);
    }

    method SetRcode(code: Rcode)
      modifies this`flags
      ensures View() == old(View()).(flags := old(View()).flags.(rcode := code.Code()))
    {
      CodeIsField(flags, code.Code());
      hide FlagsOf, Word, WithCode;
      FlagsOfWord(FlagsOf(flags).(rcode := code.Code()));
      flags := WithCode(flags, code.Code());
    }

    method SetCounters(qd: uint16, an: uint16, ns: uint16, ar: uint16)
      modifies this
      ensures View() == old(View()).(qdcount := qd, ancount := an, nscount := ns, arcount := ar)
    {
      qdcount, ancount, nscount, arcount := qd, an, ns, ar;
    }

    /** Overwrites the first twelve octets of a message. */
    method Write(buffer: bytes) returns (r: bytes)
      requires HEADER_SIZE <= |buffer|
      ensures |r| == |buffer| && ReadHeader(r) == View()
      ensures forall i :: HEADER_SIZE <= i < |buffer| ==> r[i] == buffer[i]
    {
      WordOfFlags(flags);
      r := Patch(buffer, 0, U16(id) + U16(flags) + U16(qdcount) + U16(ancount) + U16(nscount) + U16(arcount));
      HeaderRoundTrip(View(), buffer);
    }
  }
}
