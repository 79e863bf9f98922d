/** Base64 with bit accumulators, against the blocks of RFC 4648, section 4. */
module Base64 {
  import opened Bytes

  // ---- RFC 4648 ----

  type sextet = v: int | 0 <= v < 64

  const PAD: byte := 61

  /** The alphabet: A-Z, a-z, 0-9, + and /. */
  function Symbol(v: sextet): (c: byte)
    ensures c != PAD
  {
    if v < 26 then 65 + v
    else if v < 52 then 71 + v
    else if v < 62 then v - 4
    else if v == 62 then 43
    else 47
  }

  /** The value of a symbol; -1 for every other octet. */
  function Value(c: byte): (v: int)
    ensures -1 <= v < 64
    ensures v >= 0 ==> Symbol(v) == c
  {
    if 65 <= c <= 90 then c - 65
    else if 97 <= c <= 122 then c - 71
    else if 48 <= c <= 57 then c + 4
    else if c == 43 then 62
    else if c == 47 then 63
    else -1
  }

  /** The four sextets of three octets. */
  function S0(a: byte): sextet { a / 4 }
  function S1(a: byte, b: byte): sextet { a % 4 * 16 + b / 16 }
  function S2(b: byte, c: byte): sextet { b % 16 * 4 + c / 64 }
  function S3(c: byte): sextet { c % 64 }

  /** The three octets of four sextets. */
  function O0(v: sextet, w: sextet): byte { v * 4 + w / 16 }
  function O1(v: sextet, w: sextet): byte { v % 16 * 16 + w / 4 }
  function O2(v: sextet, w: sextet): byte { v % 4 * 64 + w }

  lemma OctetsOfSextets(a: byte, b: byte, c: byte)
    ensures O0(S0(a), S1(a, b)) == a
    ensures O1(S1(a, b), S2(b, c)) == b
    ensures O2(S2(b, c), S3(c)) == c
  {
  }

  function Sextets(a: byte, b: byte, c: byte): seq<sextet> {
    [S0(a), S1(a, b), S2(b, c), S3(c)]
  }

  function Symbols(v: seq<sextet>): (r: bytes)
    ensures |r| == |v| && forall k :: 0 <= k < |v| ==> r[k] == Symbol(v[k])
  {
    seq(|v|, k requires 0 <= k < |v| => Symbol(v[k]))
  }

  /** Three octets as four symbols; one or two left over are padded. */
  function EncodeBlocks(s: bytes): bytes {
    if s == [] then []
    else if |s| == 1 then Symbols([S0(s[0]), S1(s[0], 0)]) + [PAD, PAD]
    else if |s| == 2 then Symbols([S0(s[0]), S1(s[0], s[1]), S2(s[1], 0)]) + [PAD]
    else Symbols(Sextets(s[0], s[1], s[2])) + EncodeBlocks(s[3..])
  }

  /** Four values as three octets; bits left over are dropped. */
  function DecodeBlocks(v: seq<sextet>): bytes {
    if |v| <= 1 then []
    else if |v| == 2 then [O0(v[0], v[1])]
    else if |v| == 3 then [O0(v[0], v[1]), O1(v[1], v[2])]
    else [O0(v[0], v[1]), O1(v[1], v[2]), O2(v[2], v[3])] + DecodeBlocks(v[4..])
  }

  /** The values up to the first octet outside the alphabet. */
  function Values(t: bytes): seq<sextet> {
    if t == [] || Value(t[0]) < 0 then [] else [Value(t[0])] + Values(t[1..])
  }

  lemma ValueOfSymbol(v: sextet)
    ensures Value(Symbol(v)) == v
  {
  }

  lemma {:induction false} ValuesOfSymbols(v: seq<sextet>, rest: bytes)
    ensures Values(Symbols(v) + rest) == v + Values(rest)
    decreases |v|
  {
    hide Symbol, Value;
    if v == [] {
      assert Symbols(v) + rest == rest;
    } else {
      ValueOfSymbol(v[0]);
      ValuesOfSymbols(v[1..], rest);
      assert (Symbols(v) + rest)[1..] == Symbols(v[1..]) + rest;
      assert v == [v[0]] + v[1..];
    }
  }

  lemma NoValues(t: bytes)
    requires t != [] ==> t[0] == PAD
    ensures Values(t) == []
  {
  }

  /** Decoding undoes encoding, for every text. */
  lemma {:induction false} DecodeUndoesEncode(s: bytes)
    ensures DecodeBlocks(Values(EncodeBlocks(s))) == s
  {
    hide S0, S1, S2, S3, O0, O1, O2, Symbols, Values, Value;
    if s == [] {
      NoValues([]);
    } else if |s| == 1 {
      OctetsOfSextets(s[0], 0, 0);
      NoValues([PAD, PAD]);
      ValuesOfSymbols([S0(s[0]), S1(s[0], 0)], [PAD, PAD]);
    } else if |s| == 2 {
      OctetsOfSextets(s[0], s[1], 0);
      NoValues([PAD]);
      ValuesOfSymbols([S0(s[0]), S1(s[0], s[1]), S2(s[1], 0)], [PAD]);
    } else {
      OctetsOfSextets(s[0], s[1], s[2]);
      ValuesOfSymbols(Sextets(s[0], s[1], s[2]), EncodeBlocks(s[3..]));
      DecodeUndoesEncode(s[3..]);
      var w := Values(EncodeBlocks(s[3..]));
      assert (Sextets(s[0], s[1], s[2]) + w)[4..] == w;
      assert s == [s[0], s[1], s[2]] + s[3..];
    }
  }

  /** The alphabet of table 1 in RFC 4648. */
  const ALPHABET: string := "ABCDEFGHIJKLMNOPQRSTUVWXYZ" + "abcdefghijklmnopqrstuvwxyz" + "0123456789" + "+/"

  lemma UpperIs(v: sextet)
    requires v < 26
    ensures |ALPHABET| == 64 && ALPHABET[v] == (65 + v) as char
  {
  }

  lemma LowerIs(v: sextet)
    requires 26 <= v < 52
    ensures |ALPHABET| == 64 && ALPHABET[v] == (71 + v) as char
  {
  }

  lemma DigitIs(v: sextet)
    requires v >= 52
    ensures |ALPHABET| == 64 && ALPHABET[v] == (if v < 62 then v - 4 else if v == 62 then 43 else 47) as char
  {
  }

  /** The symbol of a value is the character at its place in the alphabet. */
  lemma AlphabetIs(v: sextet)
    ensures |ALPHABET| == 64 && Symbol(v) as char == ALPHABET[v]
  {
    if v < 26 { UpperIs(v); } else if v < 52 { LowerIs(v); } else { DigitIs(v); }
    hide ALPHABET;
  }

  lemma Mod64(x: int, q: int, r: int)
    requires x == 64 * q + r && 0 <= r < 64
    ensures x % 64 == r
  {
  }

  lemma Quotient(n: nat, d: nat, q: nat, r: nat)
    requires d == 64 || d == 4096 || d == 262144
    requires n == q * d + r && r < d
    ensures n / d == q
  {
    if d == 64 {
      assert n / 64 == q;
    } else if d == 4096 {
      assert n / 4096 == q;
    } else {
      assert n / 262144 == q;
    }
  }

  lemma FourDigits(a: byte, b: byte, c: byte)
    ensures var n := (a as int * 256 + b) * 256 + c;
            S0(a) == n / 262144 && S1(a, b) == n / 4096 % 64 && S2(b, c) == n / 64 % 64 && S3(c) == n % 64
  {
    var x, y, z: int := a, b, c;
    var n := (x * 256 + y) * 256 + z;
    Quotient(n, 262144, x / 4, x % 4 * 65536 + y * 256 + z);
    Quotient(n, 4096, x * 16 + y / 16, y % 16 * 256 + z);
    Quotient(n, 64, x * 1024 + y * 4 + z / 64, z % 64);
    Mod64(x * 16 + y / 16, x / 4, x % 4 * 16 + y / 16);
    Mod64(x * 1024 + y * 4 + z / 64, x * 16 + y / 16, y % 16 * 4 + z / 64);
    Mod64(n, x * 1024 + y * 4 + z / 64, z % 64);
  }

  /** The number of three octets, most significant first, has the values of the four symbols for its digits. */
  lemma SymbolsOfThree(a: byte, b: byte, c: byte)
    ensures var e := EncodeBlocks([a, b, c]);
            var n := (a as int * 256 + b) * 256 + c;
            |e| == 4 && e[0] as char == ALPHABET[n / 262144] && e[1] as char == ALPHABET[n / 4096 % 64] &&
            e[2] as char == ALPHABET[n / 64 % 64] && e[3] as char == ALPHABET[n % 64]
  {
    var v := Sextets(a, b, c);
    assert [a, b, c][3..] == [] && EncodeBlocks([a, b, c]) == Symbols(v);
    FourDigits(a, b, c);
    AlphabetIs(v[0]);
    AlphabetIs(v[1]);
    AlphabetIs(v[2]);
    AlphabetIs(v[3]);
    hide EncodeBlocks, Symbol, S0, S1, S2, S3;
  }

  /** One octet is two symbols and two signs of padding; two octets are three symbols and one. */
  lemma SymbolsOfRest(a: byte, b: byte)
    ensures var e, f := EncodeBlocks([a]), EncodeBlocks([a, b]);
            |e| == 4 && e[0] as char == ALPHABET[a / 4] && e[1] as char == ALPHABET[a % 4 * 16] &&
            e[2] as char == '=' && e[3] as char == '=' &&
            |f| == 4 && f[0] as char == ALPHABET[a / 4] && f[1] as char == ALPHABET[a % 4 * 16 + b / 16] &&
            f[2] as char == ALPHABET[b % 16 * 4] && f[3] as char == '='
  {
    var v, w := [S0(a), S1(a, 0)], [S0(a), S1(a, b), S2(b, 0)];
    assert EncodeBlocks([a]) == Symbols(v) + [PAD, PAD] && EncodeBlocks([a, b]) == Symbols(w) + [PAD];
    AlphabetIs(v[0]);
    AlphabetIs(v[1]);
    AlphabetIs(w[1]);
    AlphabetIs(w[2]);
    hide EncodeBlocks, Symbol;
  }

  /** Longer texts are encoded three octets at a time. */
  lemma ThreeAtATime(s: bytes)
    requires |s| > 3
    ensures EncodeBlocks(s) == EncodeBlocks(s[..3]) + EncodeBlocks(s[3..])
  {
    var t := s[..3];
    assert t[3..] == [] && EncodeBlocks(t) == Symbols(Sextets(t[0], t[1], t[2])) + EncodeBlocks([]);
  }

  // ---- The accumulators ----

  /** A result in a 32-bit int: the low 32 bits, in two's complement. */
  function Int32(x: int): (r: int)
    ensures -0x8000_0000 <= r < 0x8000_0000
  {
    (x + 0x8000_0000) % 0x1_0000_0000 - 0x8000_0000
  }

  /** val >> n */
  function Shr(val: int, n: nat): int
    decreases n
  {
    if n == 0 then val else Shr(val / 2, n - 1)
  }

  lemma LowBits(x: int)
    ensures Int32(x) % 0x1_0000 == x % 0x1_0000
  {
    var k := (x + 0x8000_0000) / 0x1_0000_0000;
    assert Int32(x) == x - k * 0x1_0000_0000;
    assert x == 0x1_0000 * (x / 0x1_0000) + x % 0x1_0000;
    assert Int32(x) == 0x1_0000 * (x / 0x1_0000 - k * 0x1_0000) + x % 0x1_0000;
  }

  lemma Mod256(x: int, q: int, r: int)
    requires x == 0x100 * q + r && 0 <= r < 0x100
    ensures x % 0x100 == r
  {
  }

  lemma Mod4096(x: int, q: int, r: int)
    requires x == 0x1000 * q + r && 0 <= r < 0x1000
    ensures x % 0x1000 == r
  {
  }

  lemma Mod65536(x: int, q: int, r: int)
    requires x == 0x1_0000 * q + r && 0 <= r < 0x1_0000
    ensures x % 0x1_0000 == r
  {
  }

  /** (val << 8) + c: whatever val held, the low 16 bits are its last octet and the new one. */
  lemma PushOctet(val: int, c: byte)
    ensures Int32(Int32(val * 0x100) + c) % 0x1_0000 == val % 0x100 * 0x100 + c
    ensures Int32(val * 0x100) % 0x1_0000 == val % 0x100 * 0x100
  {
    LowBits(val * 0x100);
    LowBits(Int32(val * 0x100) + c);
    hide Int32;
    var x := Int32(val * 0x100);
    Mod65536(val * 0x100, val / 0x100, val % 0x100 * 0x100);
    Mod65536(x + c, x / 0x1_0000, val % 0x100 * 0x100 + c);
  }

  lemma Low12(x: int)
    ensures Int32(x) % 0x1000 == x % 0x1000
  {
    LowBits(x);
    hide Int32;
    var r := x % 0x1_0000;
    Mod4096(x, x / 0x1_0000 * 16 + r / 0x1000, r % 0x1000);
    Mod4096(Int32(x), Int32(x) / 0x1_0000 * 16 + r / 0x1000, r % 0x1000);
  }

  /** (val << 6) + v: whatever val held, the low 12 bits are its last sextet and the new one. */
  lemma PushSextet(val: int, v: sextet)
    ensures Int32(Int32(val * 64) + v) % 0x1000 == val % 64 * 64 + v
  {
    Low12(val * 64);
    Low12(Int32(val * 64) + v);
    hide Int32;
    var x := Int32(val * 64);
    Mod4096(val * 64, val / 64, val % 64 * 64);
    Mod4096(x + v, x / 0x1000, val % 64 * 64 + v);
  }

  lemma Shift2(x: int, q: int, r: int)
    requires x == 4 * q + r && 0 <= r < 4
    ensures Shr(x, 2) == q
  {
    assert x / 2 == 2 * q + r / 2;
    assert Shr(x, 2) == Shr(x / 2, 1) == Shr(x / 2 / 2, 0);
  }

  lemma Shift4(x: int, q: int, r: int)
    requires x == 16 * q + r && 0 <= r < 16
    ensures Shr(x, 4) == q
  {
    assert x / 2 == 8 * q + r / 2;
    assert x / 2 / 2 == 4 * q + r / 4;
    assert Shr(x, 4) == Shr(x / 2, 3) == Shr(x / 2 / 2, 2);
    Shift2(4 * q + r / 4, q, r / 4);
  }

  lemma Shift6(x: int, q: int, r: int)
    requires x == 64 * q + r && 0 <= r < 64
    ensures Shr(x, 6) == q
  {
    assert x / 2 == 32 * q + r / 2;
    assert x / 2 / 2 == 16 * q + r / 4;
    assert Shr(x, 6) == Shr(x / 2, 5) == Shr(x / 2 / 2, 4);
    Shift4(16 * q + r / 4, q, r / 4);
  }

  /** (val >> n) & 0x3F for the shifts that occur. */
  lemma ShiftedSextets(val: int, a: byte, b: byte)
    requires val % 0x1_0000 == a as int * 0x100 + b
    ensures Shr(val, 0) % 64 == S3(b)
    ensures Shr(val, 2) % 64 == S0(b)
    ensures Shr(val, 4) % 64 == S1(a, b)
    ensures Shr(val, 6) % 64 == S2(a, b)
  {
    var q, p, c: int := val / 0x1_0000, a, b;
    Shift2(val, q * 0x4000 + p * 64 + c / 4, c % 4);
    Shift4(val, q * 0x1000 + p * 16 + c / 16, c % 16);
    Shift6(val, q * 0x400 + p * 4 + c / 64, c % 64);
    Mod64(val, q * 0x400 + p * 4 + c / 64, c % 64);
    Mod64(q * 0x4000 + p * 64 + c / 4, q * 0x100 + p, c / 4);
    Mod64(q * 0x1000 + p * 16 + c / 16, q * 0x40 + p / 4, p % 4 * 16 + c / 16);
    Mod64(q * 0x400 + p * 4 + c / 64, q * 0x10 + p / 16, p % 16 * 4 + c / 64);
    assert Shr(val, 0) == val;
  }

  /** (val >> n) & 0xFF for the shifts that occur. */
  lemma ShiftedOctets(val: int, v: sextet, w: sextet)
    requires val % 0x1000 == v as int * 64 + w
    ensures Shr(val, 4) % 0x100 == O0(v, w)
    ensures Shr(val, 2) % 0x100 == O1(v, w)
    ensures Shr(val, 0) % 0x100 == O2(v, w)
  {
    var q, p, c: int := val / 0x1000, v, w;
    Shift2(val, q * 0x400 + p * 16 + c / 4, c % 4);
    Shift4(val, q * 0x100 + p * 4 + c / 16, c % 16);
    Mod256(q * 0x100 + p * 4 + c / 16, q, p * 4 + c / 16);
    Mod256(q * 0x400 + p * 16 + c / 4, q * 4 + p / 16, p % 16 * 16 + c / 4);
    Mod256(val, q * 16 + p / 4, p % 4 * 64 + c);
    assert Shr(val, 0) == val;
  }

  // ---- Encoding ----

  /** The symbols of whole blocks, and of the complete sextets of the octets left over. */
  function Complete(s: bytes): bytes {
    if s == [] then []
    else if |s| == 1 then Symbols([S0(s[0])])
    else if |s| == 2 then Symbols([S0(s[0]), S1(s[0], s[1])])
    else Symbols(Sextets(s[0], s[1], s[2])) + Complete(s[3..])
  }

  /** The sextets that one more octet completes. */
  function More(s: bytes, c: byte): seq<sextet> {
    if |s| % 3 == 0 then [S0(c)]
    else if |s| % 3 == 1 then [S1(s[|s| - 1], c)]
    else [S2(s[|s| - 1], c), S3(c)]
  }

  lemma SymbolsConcat(v: seq<sextet>, w: seq<sextet>)
    ensures Symbols(v + w) == Symbols(v) + Symbols(w)
  {
    hide Symbol;
  }

  lemma CompleteCons(a: byte, b: byte, c: byte, s: bytes)
    ensures Complete([a, b, c] + s) == Symbols(Sextets(a, b, c)) + Complete(s)
  {
    hide Symbols, Sextets;
    assert ([a, b, c] + s)[3..] == s;
  }

  lemma FirstThree(s: bytes)
    requires |s| > 2
    ensures s == [s[0], s[1], s[2]] + s[3..]
  {
  }

  lemma CompleteShort(a: byte, b: byte)
    ensures Complete([]) == [] && Complete([a]) == Symbols([S0(a)]) && Complete([a, b]) == Symbols([S0(a), S1(a, b)])
  {
  }

  lemma SameMore(a: byte, b: byte, c: byte, s: bytes, d: byte)
    ensures More([a, b, c] + s, d) == More(s, d)
  {
    hide S0, S1, S2, S3;
    var t := [a, b, c] + s;
    assert |t| % 3 == |s| % 3;
    assert s != [] ==> t[|t| - 1] == s[|s| - 1];
  }

  lemma {:induction false} CompleteSnoc(s: bytes, c: byte)
    ensures Complete(s + [c]) == Complete(s) + Symbols(More(s, c))
  {
    hide S0, S1, S2, S3, Symbol, Symbols, Complete;
    if s == [] {
      CompleteShort(c, c);
      assert [] + [c] == [c];
    } else if |s| == 1 {
      CompleteShort(s[0], c);
      SymbolsConcat([S0(s[0])], [S1(s[0], c)]);
      assert s == [s[0]] && s + [c] == [s[0], c];
    } else if |s| == 2 {
      CompleteShort(s[0], s[1]);
      CompleteCons(s[0], s[1], c, []);
      SymbolsConcat([S0(s[0]), S1(s[0], s[1])], [S2(s[1], c), S3(c)]);
      assert s == [s[0], s[1]] && s + [c] == [s[0], s[1], c] + [];
    } else {
      hide More;
      var t := s[3..];
      FirstThree(s);
      CompleteSnoc(t, c);
      CompleteCons(s[0], s[1], s[2], t);
      CompleteCons(s[0], s[1], s[2], t + [c]);
      SameMore(s[0], s[1], s[2], t, c);
      assert s + [c] == [s[0], s[1], s[2]] + (t + [c]);
    }
  }

  /** What is written after the last octet: the bits still held, and the padding. */
  function Rest(s: bytes): bytes {
    if |s| % 3 == 0 then []
    else if |s| % 3 == 1 then Symbols([S1(s[|s| - 1], 0)]) + [PAD, PAD]
    else Symbols([S2(s[|s| - 1], 0)]) + [PAD]
  }

  lemma {:induction false} CompleteThenRest(s: bytes)
    ensures EncodeBlocks(s) == Complete(s) + Rest(s)
  {
    hide S0, S1, S2, S3, Symbol;
    if |s| == 1 {
      assert Symbols([S0(s[0]), S1(s[0], 0)]) == Symbols([S0(s[0])]) + Symbols([S1(s[0], 0)]);
    } else if |s| == 2 {
      assert Symbols([S0(s[0]), S1(s[0], s[1]), S2(s[1], 0)]) ==
             Symbols([S0(s[0]), S1(s[0], s[1])]) + Symbols([S2(s[1], 0)]);
    } else if |s| > 2 {
      hide Rest;
      CompleteThenRest(s[3..]);
      SameRest(s);
      var head := Symbols(Sextets(s[0], s[1], s[2]));
      assert |head| == 4;
      hide Symbols, Sextets;
      assert EncodeBlocks(s) == head + (Complete(s[3..]) + Rest(s));
      assert Complete(s) == head + Complete(s[3..]);
    }
  }

  lemma BlockMore(m: nat, n: nat)
    ensures (4 + m) % 4 == m % 4 && (3 + n) % 3 == n % 3
  {
  }

  lemma {:induction false} CompleteLength(s: bytes)
    ensures |Complete(s)| % 4 == |s| % 3
  {
    hide S0, S1, S2, S3, Symbol;
    if |s| > 2 {
      assert |Complete(s)| == 4 + |Complete(s[3..])|;
      hide Complete;
      CompleteLength(s[3..]);
      BlockMore(|Complete(s[3..])|, |s| - 3);
    }
  }

  lemma SameRest(s: bytes)
    requires |s| > 2
    ensures Rest(s[3..]) == Rest(s)
  {
    hide S1, S2, Symbols;
    var t := s[3..];
    assert |t| % 3 == |s| % 3;
    assert t != [] ==> t[|t| - 1] == s[|s| - 1];
  }

  /** The same sextets by the state of the accumulator: the shift that comes first, and its last two octets. */
  function Held(first: int, p: byte, c: byte): seq<sextet> {
    if first == 2 then [S0(c)] else if first == 4 then [S1(p, c)] else [S2(p, c), S3(c)]
  }

  lemma MoreIsHeld(s: bytes, i: nat, p: byte, c: byte)
    requires i <= |s| && (i > 0 ==> p == s[i - 1])
    ensures More(s[..i], c) == Held(2 + 2 * (i % 3), p, c)
  {
  }

  /** The sextets complete in the accumulator, from the highest shift down. */
  method Flush(val: int, first: int, ghost p: byte, ghost c: byte) returns (out: bytes, valb: int)
    requires first in {2, 4, 6} && val % 0x1_0000 == p as int * 0x100 + c
    ensures valb == if first == 6 then -6 else first - 6
    ensures out == Symbols(Held(first, p, c))
  {
    ShiftedSextets(val, p, c);
    hide Shr, Symbol, S0, S1, S2, S3;
    out, valb := [], first;
    while valb >= 0
      invariant valb == first || valb == first - 6 || (first == 6 && valb == -6)
      invariant valb == first ==> out == []
      invariant valb == first - 6 ==> out == [Symbol(Shr(val, first) % 64)]
      invariant first == 6 && valb == -6 ==> out == [Symbol(Shr(val, 6) % 64), Symbol(Shr(val, 0) % 64)]
    {
      out := out + [Symbol(Shr(val, valb) % 64)];
      valb := valb - 6;
    }
  }

  /** Padding up to a whole block. */
  method Pad(s: bytes) returns (out: bytes)
    requires |s| % 4 != 1
    ensures out == s + if |s| % 4 == 0 then [] else if |s| % 4 == 3 then [PAD] else [PAD, PAD]
  {
    out := s;
    while |out| % 4 != 0
      invariant out == s || (out == s + [PAD] && |s| % 4 != 0) || (out == s + [PAD, PAD] && |s| % 4 == 2)
      decreases (4 - |out| % 4) % 4
    {
      out := out + [PAD];
    }
  }

  method Base64Encode(s: bytes) returns (out: bytes)
    ensures out == EncodeBlocks(s)
  {
    hide Int32, Shr, Symbol, S0, S1, S2, S3, Complete, EncodeBlocks, More, Held, Rest;
    out := [];
    var val, valb := 0, -6;
    EmptyBlocks();
    assert s[..0] == [];
    for i := 0 to |s|
      invariant valb == -6 + 2 * (i % 3)
      invariant i > 0 ==> val % 0x100 == s[i - 1]
      invariant out == Complete(s[..i])
    {
      var c := s[i];
      ghost var p: byte := val % 0x100;
      PushOctet(val, c);
      val := Int32(Int32(val * 0x100) + c);
      LastOctet(val, p, c);
      assert s[..i + 1] == s[..i] + [c];
      CompleteSnoc(s[..i], c);
      MoreIsHeld(s, i, p, c);
      var more;
      more, valb := Flush(val, valb + 8, p, c);
      out := out + more;
    }
    assert s[..|s|] == s;
    CompleteThenRest(s);
    CompleteLength(s);
    ghost var whole := out;
    assert whole == Complete(s) && valb == -6 + 2 * (|s| % 3);
    if valb > -6 {
      PushOctet(val, 0);
      ShiftedSextets(Int32(val * 0x100), val % 0x100, 0);
      out := out + [Symbol(Shr(Int32(val * 0x100), valb + 8) % 64)];
    }
    RestIs(s, whole, out);
    out := Pad(out);
  }

  /** The sextet still held and the padding are the rest. */
  lemma RestIs(s: bytes, whole: bytes, out: bytes)
    requires |whole| % 4 == |s| % 3
    requires |s| % 3 == 0 ==> out == whole
    requires |s| % 3 == 1 ==> out == whole + [Symbol(S1(s[|s| - 1], 0))]
    requires |s| % 3 == 2 ==> out == whole + [Symbol(S2(s[|s| - 1], 0))]
    ensures |out| % 4 != 1
    ensures whole + Rest(s) == out + if |out| % 4 == 0 then [] else if |out| % 4 == 3 then [PAD] else [PAD, PAD]
  {
    hide Symbol, S1, S2;
    if |s| % 3 == 0 {
      assert whole + [] == whole;
    } else {
      assert |out| == |whole| + 1;
    }
  }

  lemma LastOctet(val: int, p: byte, c: byte)
    requires val % 0x1_0000 == p as int * 0x100 + c
    ensures val % 0x100 == c
  {
    Mod256(val, val / 0x1_0000 * 0x100 + p, c);
  }

  lemma EmptyBlocks()
    ensures Complete([]) == [] && EncodeBlocks([]) == []
  {
  }

  // ---- Decoding ----

  /** The octet that one more sextet completes. */
  function NewOctet(v: seq<sextet>, w: sextet): bytes {
    if |v| % 4 == 0 then []
    else if |v| % 4 == 1 then [O0(v[|v| - 1], w)]
    else if |v| % 4 == 2 then [O1(v[|v| - 1], w)]
    else [O2(v[|v| - 1], w)]
  }

  lemma DecodeCons(a: sextet, b: sextet, c: sextet, d: sextet, v: seq<sextet>)
    ensures DecodeBlocks([a, b, c, d] + v) == [O0(a, b), O1(b, c), O2(c, d)] + DecodeBlocks(v)
  {
    hide O0, O1, O2;
    assert ([a, b, c, d] + v)[4..] == v;
  }

  lemma DecodeShort(a: sextet, b: sextet, c: sextet)
    ensures DecodeBlocks([]) == [] == DecodeBlocks([a])
    ensures DecodeBlocks([a, b]) == [O0(a, b)] && DecodeBlocks([a, b, c]) == [O0(a, b), O1(b, c)]
  {
    hide O0, O1, O2;
  }

  lemma FirstFour(v: seq<sextet>)
    requires |v| > 3
    ensures v == [v[0], v[1], v[2], v[3]] + v[4..]
  {
  }

  lemma SameOctet(a: sextet, b: sextet, c: sextet, d: sextet, v: seq<sextet>, w: sextet)
    ensures NewOctet([a, b, c, d] + v, w) == NewOctet(v, w)
  {
    hide O0, O1, O2;
    var u := [a, b, c, d] + v;
    assert |u| % 4 == |v| % 4;
    assert v != [] ==> u[|u| - 1] == v[|v| - 1];
  }

  lemma {:induction false} DecodeSnoc(v: seq<sextet>, w: sextet)
    ensures DecodeBlocks(v + [w]) == DecodeBlocks(v) + NewOctet(v, w)
    decreases |v|
  {
    hide O0, O1, O2, DecodeBlocks;
    if v == [] {
      DecodeShort(w, w, w);
      assert v + [w] == [w];
    } else if |v| == 1 {
      DecodeShort(v[0], w, w);
      assert v == [v[0]] && v + [w] == [v[0], w];
    } else if |v| == 2 {
      DecodeShort(v[0], v[1], w);
      assert v == [v[0], v[1]] && v + [w] == [v[0], v[1], w];
    } else if |v| == 3 {
      DecodeShort(v[0], v[1], v[2]);
      DecodeCons(v[0], v[1], v[2], w, []);
      assert v == [v[0], v[1], v[2]] && v + [w] == [v[0], v[1], v[2], w] + [];
    } else {
      hide NewOctet;
      var t := v[4..];
      FirstFour(v);
      DecodeSnoc(t, w);
      DecodeCons(v[0], v[1], v[2], v[3], t);
      DecodeCons(v[0], v[1], v[2], v[3], t + [w]);
      SameOctet(v[0], v[1], v[2], v[3], t, w);
      assert v + [w] == [v[0], v[1], v[2], v[3]] + (t + [w]);
    }
  }

  lemma ValuesCons(c: byte, t: bytes)
    requires Value(c) >= 0
    ensures Values([c] + t) == [Value(c)] + Values(t)
  {
    hide Value;
    assert ([c] + t)[1..] == t;
  }

  lemma ValuesStop(t: bytes)
    requires t != [] ==> Value(t[0]) < 0
    ensures Values(t) == []
  {
  }

  lemma {:induction false} ValuesConcat(a: bytes, t: bytes)
    requires forall k :: 0 <= k < |a| ==> Value(a[k]) >= 0
    ensures |Values(a)| == |a| && Values(a + t) == Values(a) + Values(t)
  {
    hide Value, Values;
    if a == [] {
      ValuesStop([]);
      assert a + t == t;
    } else {
      var b := a[1..];
      ValuesConcat(b, t);
      ValuesCons(a[0], b);
      ValuesCons(a[0], b + t);
      assert a == [a[0]] + b;
      assert a + t == [a[0]] + (b + t);
    }
  }

  lemma ValuesUpTo(t: bytes, i: nat)
    requires i <= |t| && forall k :: 0 <= k < i ==> Value(t[k]) >= 0
    ensures |Values(t[..i])| == i && Values(t) == Values(t[..i]) + Values(t[i..])
    ensures i < |t| && Value(t[i]) >= 0 ==> Values(t[..i + 1]) == Values(t[..i]) + [Value(t[i])]
    ensures i < |t| && Value(t[i]) < 0 ==> Values(t) == Values(t[..i])
  {
    hide Value, Values;
    var a := t[..i];
    assert t == a + t[i..];
    ValuesConcat(a, t[i..]);
    if i < |t| {
      assert t[i..] == [t[i]] + t[i + 1..];
      if Value(t[i]) >= 0 {
        ValuesConcat(a, [t[i]]);
        assert t[..i + 1] == a + [t[i]];
        ValuesCons(t[i], []);
        ValuesStop([]);
        assert [t[i]] + [] == [t[i]];
      } else {
        ValuesStop(t[i..]);
      }
    }
  }

  /** The reverse table: -1 where the alphabet has no such octet. */
  method Table() returns (T: array<int>)
    ensures fresh(T) && T.Length == 0x100 && forall c: byte :: T[c] == Value(c)
  {
    T := new int[0x100](_ => -1);
    for i := 0 to 64
      invariant forall c: byte :: T[c] == if Value(c) < i then Value(c) else -1
    {
      ValueOfSymbol(i);
      T[Symbol(i)] := i;
    }
  }

  method Base64Decode(t: bytes) returns (out: bytes)
    ensures out == DecodeBlocks(Values(t))
  {
    hide Int32, Shr, Value, Symbol, O0, O1, O2, DecodeBlocks, Values;
    var T := Table();
    out := [];
    var val, valb := 0, -8;
    NothingDecoded();
    assert t[..0] == [];
    for i := 0 to |t|
      modifies {}
      invariant forall k :: 0 <= k < i ==> Value(t[k]) >= 0
      invariant |Values(t[..i])| == i
      invariant valb == if i % 4 == 0 then -8 else 0 - 2 * (i % 4)
      invariant i > 0 ==> val % 64 == Values(t[..i])[i - 1]
      invariant out == DecodeBlocks(Values(t[..i]))
    {
      ValuesUpTo(t, i);
      var c := t[i];
      ValueRange(c);
      if T[c] == -1 {
        return;
      }
      var v: sextet := T[c];
      ghost var w: sextet := val % 64;
      PushSextet(val, v);
      val := Int32(Int32(val * 64) + v);
      ShiftedOctets(val, w, v);
      Mod64(val, val / 0x1000 * 64 + w, v);
      DecodeSnoc(Values(t[..i]), v);
      assert DecodeBlocks(Values(t[..i])) + [] == DecodeBlocks(Values(t[..i]));
      valb := valb + 6;
      if valb >= 0 {
        out := out + [Shr(val, valb) % 0x100];
        valb := valb - 8;
      }
    }
    assert t[..|t|] == t;
  }

  lemma ValueRange(c: byte)
    ensures Value(c) == -1 || 0 <= Value(c) < 64
  {
  }

  lemma NothingDecoded()
    ensures Values([]) == [] && DecodeBlocks([]) == []
  {
  }
}
