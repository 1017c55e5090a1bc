/** Streaming base32 without padding, lowercase (RFC 4648, section 6), through a wrapping 32-bit buffer. */
module Base32 {

  type Byte = b: nat | b < 256
  type Symbol = s: nat | s < 32

  const ALPHABET: string := "abcdefghijklmnopqrstuvwxyz234567"
  const TWO_32: nat := 0x1_0000_0000

  function Pow2(k: nat): (p: nat)
    ensures p > 0
  {
    if k == 0 then 1 else 2 * Pow2(k - 1)
  }

  // ---- the reference: one big number ----

  /** The bytes as one big-endian number. */
  function BytesValue(bytes: seq<Byte>): nat {
    if bytes == [] then 0 else BytesValue(bytes[..|bytes| - 1]) * 256 + bytes[|bytes| - 1]
  }

  /** The symbols as one big-endian number. */
  function SymbolsValue(symbols: seq<Symbol>): nat {
    if symbols == [] then 0 else SymbolsValue(symbols[..|symbols| - 1]) * 32 + symbols[|symbols| - 1]
  }

  /** The number of symbols that hold n bytes. */
  function EncodedLength(n: nat): nat {
    (8 * n + 4) / 5
  }

  /** The bits of the bytes, zero bits up to a multiple of five, read five at a time. */
  ghost predicate IsEncoding(bytes: seq<Byte>, symbols: seq<Symbol>) {
    |symbols| == EncodedLength(|bytes|)
    && SymbolsValue(symbols) == BytesValue(bytes) * Pow2(5 * EncodedLength(|bytes|) - 8 * |bytes|)
  }

  /** The n base-256 digits of a number. */
  function ToBytes(value: nat, n: nat): (r: seq<Byte>)
    ensures |r| == n
  {
    if n == 0 then [] else ToBytes(value / 256, n - 1) + [value % 256]
  }

  /** The whole bytes that the symbols hold; left-over bits are dropped. */
  function Decode(symbols: seq<Symbol>): seq<Byte> {
    ToBytes(Quotient(SymbolsValue(symbols), Pow2(SpareBits(|symbols|))), WholeBytes(|symbols|))
  }

  function Quotient(value: nat, p: nat): nat
    requires p > 0
  {
    value / p
  }

  /** The bits of k symbols beyond the whole bytes. */
  function SpareBits(k: nat): nat {
    5 * k - 8 * WholeBytes(k)
  }

  function WholeBytes(k: nat): (n: nat)
    ensures 8 * n <= 5 * k < 8 * n + 8
  {
    5 * k / 8
  }

  function Symbols(text: string): (r: seq<Symbol>)
    requires forall i :: 0 <= i < |text| ==> text[i] in ALPHABET
    ensures |r| == |text|
  {
    seq(|text|, i requires 0 <= i < |text| => SymbolOf(text[i]))
  }

  function SymbolOf(c: char): (s: Symbol)
    requires c in ALPHABET
    ensures ALPHABET[s] == c
  {
    AlphabetParts(c);
    if 'a' <= c <= 'z' then c as int - 'a' as int else c as int - '2' as int + 26
  }

  lemma AlphabetParts(c: char)
    requires c in ALPHABET
    ensures |ALPHABET| == 32
    ensures 'a' <= c <= 'z' || '2' <= c <= '7'
    ensures 'a' <= c <= 'z' ==> ALPHABET[c as int - 'a' as int] == c
    ensures '2' <= c <= '7' ==> ALPHABET[c as int - '2' as int + 26] == c
  {
  }

  lemma SymbolOfLetter(s: Symbol)
    ensures |ALPHABET| == 32 && ALPHABET[s] in ALPHABET && SymbolOf(ALPHABET[s]) == s
  {
  }

  // ---- the buffer ----

  /** Shifting left in 32 bits drops what leaves the top. */
  function ShiftLeft(buffer: nat, k: nat): nat {
    buffer * Pow2(k) % TWO_32
  }

  /** The five bits above position `bits`. */
  function FiveBits(buffer: nat, bits: nat): Symbol {
    buffer / Pow2(bits) % 32
  }

  lemma Powers()
    ensures Pow2(0) == 1 && Pow2(1) == 2 && Pow2(2) == 4 && Pow2(3) == 8 && Pow2(4) == 16 && Pow2(5) == 32
    ensures Pow2(8) == 256
  {
    assert Pow2(3) == 8;
    assert Pow2(6) == 64;
  }

  lemma {:induction false} PowersMultiply(a: nat, b: nat)
    ensures Pow2(a + b) == Pow2(a) * Pow2(b)
  {
    if a > 0 {
      PowersMultiply(a - 1, b);
    }
  }

  lemma Multiple(m: nat, k: nat)
    requires k >= 1
    ensures m * k >= m
  {
  }

  /** Quotient and remainder are unique. */
  lemma DivideOnce(n: nat, m: nat, t: int, r: nat)
    requires m > 0 && n == m * t + r && r < m
    ensures n % m == r && n / m == t
  {
    var d := n / m;
    assert n == m * d + n % m;
    assert m * (t - d) == n % m - r;
    assert m * (d - t) == -(m * (t - d));
    if t > d {
      Multiple(m, t - d);
    } else if t < d {
      Multiple(m, d - t);
    }
  }

  /** The wrap-around drops whole multiples of a smaller power. */
  lemma WrapKeepsLowPart(x: nat, m: nat, k: nat)
    requires m > 0 && m * k == TWO_32
    ensures x % TWO_32 % m == x % m
  {
    var q := x / TWO_32;
    assert x == TWO_32 * q + x % TWO_32;
    var y := x % TWO_32;
    assert y == m * (y / m) + y % m;
    assert TWO_32 * q == m * (k * q);
    assert m * (k * q + y / m) == m * (k * q) + m * (y / m);
    DivideOnce(x, m, k * q + y / m, y % m);
  }

  /** Scaling by f scales the remainder. */
  lemma ScaledRemainder(x: nat, d: nat, f: nat, b: nat)
    requires d > 0 && b < f
    ensures (x * f + b) % (d * f) == x % d * f + b
  {
    var q, r := x / d, x % d;
    assert x == d * q + r;
    assert x * f == d * f * q + r * f;
    assert (r + 1) * f <= d * f;
    assert (r + 1) * f == r * f + f;
    DivideOnce(x * f + b, d * f, q, r * f + b);
  }

  /** Taking in a byte: of the up to four pending bits none is lost in the wrap-around. */
  lemma TakeIn(buffer: nat, bits: nat, b: Byte)
    requires bits < 5
    ensures (ShiftLeft(buffer, 8) + b) % Pow2(bits + 8) == buffer % Pow2(bits) * 256 + b
  {
    Powers();
    PowersMultiply(bits, 8);
    var d, x := Pow2(bits), buffer * 256;
    var m := d * 256;
    WrapTimes(bits);
    var k := Pow2(24 - bits);
    hide Pow2;
    WrapKeepsLowPart(x, m, k);
    var y := x % TWO_32;
    ScaledRemainder(buffer, d, 256, 0);
    ScaledRemainder(buffer, d, 256, b);
    SameRemainderPlus(x, y, m, b);
  }

  lemma WrapTimes(bits: nat)
    requires bits < 5
    ensures Pow2(bits) * 256 * Pow2(24 - bits) == TWO_32
  {
    Powers();
    PowersMultiply(bits, 24 - bits);
    PowersMultiply(8, 16);
    PowersMultiply(8, 8);
    var d, k := Pow2(bits), Pow2(24 - bits);
    assert d * 256 * k == d * k * 256;
  }

  lemma SameRemainderPlus(x: nat, y: nat, m: nat, b: nat)
    requires m > 0 && x % m == y % m && x % m + b < m
    ensures (x + b) % m == (y + b) % m
  {
    DivideOnce(x + b, m, x / m, x % m + b);
    DivideOnce(y + b, m, y / m, y % m + b);
  }

  /** Giving out a symbol: the pending bits are its five bits and the rest. */
  lemma GiveOut(buffer: nat, bits: nat)
    requires 5 <= bits
    ensures Pow2(bits) == 32 * Pow2(bits - 5)
    ensures buffer % Pow2(bits) == FiveBits(buffer, bits - 5) * Pow2(bits - 5) + buffer % Pow2(bits - 5)
  {
    Powers();
    PowersMultiply(5, bits - 5);
    var a := Pow2(bits - 5);
    hide Pow2;
    SplitRemainder(buffer, a);
  }

  lemma SplitRemainder(x: nat, a: nat)
    requires a > 0
    ensures x % (32 * a) == x / a % 32 * a + x % a
  {
    var q, r := x / a, x % a;
    assert x == a * q + r;
    ScaledRemainder(q, 32, a, r);
    assert x == q * a + r;
  }

  /** The last, incomplete symbol: its missing bits are zero. */
  lemma LastBits(buffer: nat, bits: nat)
    requires 1 <= bits <= 4
    ensures ShiftLeft(buffer, 5 - bits) % 32 == buffer % Pow2(bits) * Pow2(5 - bits)
  {
    Powers();
    PowersMultiply(bits, 5 - bits);
    var d, f := Pow2(bits), Pow2(5 - bits);
    hide Pow2;
    WrapKeepsLowPart(buffer * f, 32, 0x800_0000);
    ScaledRemainder(buffer, d, f, 0);
  }

  // ---- the encoder ----

  /** What has been put out and what is pending make up what has been read. */
  ghost predicate IsPartial(read: seq<Byte>, symbols: seq<Symbol>, buffer: nat, bits: nat) {
    && 8 * |read| == 5 * |symbols| + bits
    && BytesValue(read) == SymbolsValue(symbols) * Pow2(bits) + buffer % Pow2(bits)
  }

  lemma ReadByte(read: seq<Byte>, b: Byte, symbols: seq<Symbol>, buffer: nat, bits: nat)
    requires IsPartial(read, symbols, buffer, bits) && bits < 5
    ensures IsPartial(read + [b], symbols, ShiftLeft(buffer, 8) + b, bits + 8)
  {
    TakeIn(buffer, bits, b);
    Powers();
    PowersMultiply(bits, 8);
    hide Pow2, ShiftLeft;
    assert (read + [b])[..|read|] == read;
    var v, p := SymbolsValue(symbols), Pow2(bits);
    assert Pow2(bits + 8) == p * 256;
    assert (v * p + buffer % p) * 256 + b == v * (p * 256) + (buffer % p * 256 + b);
  }

  lemma WriteSymbol(read: seq<Byte>, symbols: seq<Symbol>, buffer: nat, bits: nat)
    requires IsPartial(read, symbols, buffer, bits) && 5 <= bits <= 12
    ensures IsPartial(read, symbols + [FiveBits(buffer, bits - 5)], buffer, bits - 5)
  {
    GiveOut(buffer, bits);
    hide Pow2, FiveBits, SymbolsValue, BytesValue;
    var s := FiveBits(buffer, bits - 5);
    AppendSymbol(symbols, s);
    Regroup(SymbolsValue(symbols), s, Pow2(bits - 5));
  }

  lemma Regroup(v: nat, s: nat, p: nat)
    ensures (v * 32 + s) * p == v * (32 * p) + s * p
  {
  }

  lemma AppendSymbol(symbols: seq<Symbol>, s: Symbol)
    ensures SymbolsValue(symbols + [s]) == SymbolsValue(symbols) * 32 + s
  {
    assert (symbols + [s])[..|symbols|] == symbols;
  }

  lemma Finish(read: seq<Byte>, symbols: seq<Symbol>, buffer: nat, bits: nat)
    requires IsPartial(read, symbols, buffer, bits) && bits < 5
    ensures bits == 0 ==> IsEncoding(read, symbols)
    ensures bits > 0 ==> IsEncoding(read, symbols + [ShiftLeft(buffer, 5 - bits) % 32])
  {
    Powers();
    if bits == 0 {
      assert SymbolsValue(symbols) == BytesValue(read) * 1;
    } else {
      LastBits(buffer, bits);
      var s: Symbol := ShiftLeft(buffer, 5 - bits) % 32;
      assert (symbols + [s])[..|symbols|] == symbols;
      var v, p, q := SymbolsValue(symbols), Pow2(bits), Pow2(5 - bits);
      assert p * q == 32;
      assert (v * p + buffer % p) * q == v * (p * q) + buffer % p * q;
    }
  }

  method Base32LowerInline(bytes: seq<Byte>) returns (out: string)
    ensures forall i :: 0 <= i < |out| ==> out[i] in ALPHABET
    ensures IsEncoding(bytes, Symbols(out))
  {
    hide IsPartial, IsEncoding, ShiftLeft, FiveBits;
    out := "";
    var buffer: nat := 0;
    var bits: nat := 0;
    ghost var symbols: seq<Symbol> := [];
    NothingRead();
    for i := 0 to |bytes|
      invariant bits < 5 && IsPartial(bytes[..i], symbols, buffer, bits)
      invariant Spells(out, symbols)
    {
      var b := bytes[i];
      assert bytes[..i + 1] == bytes[..i] + [b];
      ReadByte(bytes[..i], b, symbols, buffer, bits);
      buffer := ShiftLeft(buffer, 8) + b;
      bits := bits + 8;
      while bits >= 5
        invariant bits <= 12 && IsPartial(bytes[..i + 1], symbols, buffer, bits)
        invariant Spells(out, symbols)
      {
        WriteSymbol(bytes[..i + 1], symbols, buffer, bits);
        bits := bits - 5;
        var s := FiveBits(buffer, bits);
        SpellOne(out, symbols, s);
        out := out + [ALPHABET[s]];
        symbols := symbols + [s];
      }
    }
    assert bytes[..|bytes|] == bytes;
    Finish(bytes, symbols, buffer, bits);
    if bits > 0 {
      var s: Symbol := ShiftLeft(buffer, 5 - bits) % 32;
      SpellOne(out, symbols, s);
      out := out + [ALPHABET[s]];
      symbols := symbols + [s];
    }
    SpelledSymbols(out, symbols);
  }

  ghost predicate Spells(out: string, symbols: seq<Symbol>) {
    |out| == |symbols| && forall i :: 0 <= i < |out| ==> |ALPHABET| == 32 && out[i] == ALPHABET[symbols[i]]
  }

  lemma SpellOne(out: string, symbols: seq<Symbol>, s: Symbol)
    requires Spells(out, symbols)
    ensures |ALPHABET| == 32 && Spells(out + [ALPHABET[s]], symbols + [s])
  {
  }

  lemma SpelledSymbols(out: string, symbols: seq<Symbol>)
    requires Spells(out, symbols)
    ensures forall i :: 0 <= i < |out| ==> out[i] in ALPHABET
    ensures Symbols(out) == symbols
  {
    forall i | 0 <= i < |out| ensures out[i] in ALPHABET && SymbolOf(out[i]) == symbols[i] {
      SymbolOfLetter(symbols[i]);
    }
  }

  lemma NothingRead()
    ensures IsPartial([], [], 0, 0) && Spells("", [])
  {
    Powers();
    hide Pow2;
  }

  // ---- what the encoding is worth ----

  lemma {:induction false} BytesReadBack(bytes: seq<Byte>)
    ensures ToBytes(BytesValue(bytes), |bytes|) == bytes
  {
    if bytes != [] {
      var last := |bytes| - 1;
      var v := BytesValue(bytes[..last]);
      BytesReadBack(bytes[..last]);
      DivideOnce(v * 256 + bytes[last], 256, v, bytes[last]);
    }
  }

  /** Decoding gives the bytes back, for every input. */
  lemma DecodeUndoesEncode(bytes: seq<Byte>, symbols: seq<Symbol>)
    requires IsEncoding(bytes, symbols)
    ensures Decode(symbols) == bytes
  {
    var n, v, k := |bytes|, BytesValue(bytes), 5 * EncodedLength(|bytes|) - 8 * |bytes|;
    EncodedLengthFits(n);
    BytesReadBack(bytes);
    hide Pow2, BytesValue, SymbolsValue, ToBytes, Quotient, WholeBytes, SpareBits, EncodedLength;
    QuotientOfMultiple(v, Pow2(k));
  }

  lemma QuotientOfMultiple(v: nat, p: nat)
    requires p > 0
    ensures Quotient(v * p, p) == v
  {
    DivideOnce(v * p, p, v, 0);
  }

  lemma EncodedLengthFits(n: nat)
    ensures WholeBytes(EncodedLength(n)) == n && SpareBits(EncodedLength(n)) == 5 * EncodedLength(n) - 8 * n
  {
  }

  /** Distinct inputs have distinct encodings. */
  lemma EncodingIsInjective(a: seq<Byte>, b: seq<Byte>, symbols: seq<Symbol>)
    requires IsEncoding(a, symbols) && IsEncoding(b, symbols)
    ensures a == b
  {
    DecodeUndoesEncode(a, symbols);
    DecodeUndoesEncode(b, symbols);
  }

  /** The encoding is the only one: symbols of one length are determined by their value. */
  lemma {:induction false} SymbolsDetermined(a: seq<Symbol>, b: seq<Symbol>)
    requires |a| == |b| && SymbolsValue(a) == SymbolsValue(b)
    ensures a == b
  {
    if a != [] {
      var last := |a| - 1;
      DivideOnce(SymbolsValue(a), 32, SymbolsValue(a[..last]), a[last]);
      DivideOnce(SymbolsValue(b), 32, SymbolsValue(b[..last]), b[last]);
      SymbolsDetermined(a[..last], b[..last]);
      assert a == a[..last] + [a[last]] && b == b[..last] + [b[last]];
    }
  }

  lemma EncodingIsUnique(bytes: seq<Byte>, a: seq<Symbol>, b: seq<Symbol>)
    requires IsEncoding(bytes, a) && IsEncoding(bytes, b)
    ensures a == b
  {
    SymbolsDetermined(a, b);
  }

  // ---- content identifiers ----

  const CID_HEADER: seq<Byte> := [0x01, 0x55, 0x12, 0x20]

  /** The identifier of a 32-byte digest. */
  method ComputeCid(digest: seq<Byte>) returns (cid: string)
    requires |digest| == 32
    ensures |cid| == 58 && forall i :: 0 <= i < |cid| ==> cid[i] in ALPHABET
    ensures Decode(Symbols(cid)) == [0x01, 0x55, 0x12, 0x20] + digest
  {
    cid := Base32LowerInline(CID_HEADER + digest);
    DecodeUndoesEncode(CID_HEADER + digest, Symbols(cid));
  }
}
