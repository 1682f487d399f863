/** The 16-bit one's-complement checksum shared by IP, TCP and ICMP
    (tools.py). The source reads the whole buffer as one big-endian integer
    and peels bytes off its low end, so its 16-bit words are aligned from the
    END of the buffer and an odd-length buffer behaves as if a zero byte were
    PREPENDED. RFC 1071 aligns words from the front and pads at the end; the
    two agree on even lengths only. */
module InternetChecksum {
  import opened Bytes

  /** `x` modulo 0xFFFF, the modulus of one's-complement arithmetic. Written
      as a recursion so that the arithmetic facts the proofs need are the
      lemmas below and nothing else. */
  function Res(x: nat): nat
    decreases x
  {
    if x < 0xFFFF then x else Res(x - 0xFFFF)
  }

  lemma {:induction false} ResIsMod(x: nat)
    ensures Res(x) == x % 0xFFFF
    decreases x
  {
    if x >= 0xFFFF {
      ResIsMod(x - 0xFFFF);
    }
  }

  /** Reducing the first summand first does not change the residue. */
  lemma {:induction false} ResSum(a: nat, b: nat)
    ensures Res(a + b) == Res(Res(a) + b)
    decreases a
  {
    if a >= 0xFFFF {
      ResSum(a - 0xFFFF, b);
    }
  }

  /** Congruent summands give congruent sums. */
  lemma {:induction false} ResAdd(a: nat, b: nat, x: nat)
    requires Res(a) == Res(b)
    ensures Res(a + x) == Res(b + x) && Res(x + a) == Res(x + b)
  {
    ResSum(a, x);
    ResSum(b, x);
  }

  /** Shifting left by sixteen bits is the identity modulo 0xFFFF. */
  lemma {:induction false} ShiftWord(k: nat, x: nat)
    ensures Res(k * 0x1_0000 + x) == Res(k + x)
    decreases k
  {
    if k > 0 {
      ShiftWord(k - 1, x);
      ResAdd((k - 1) * 0x1_0000 + x, k - 1 + x, 1);
      assert k * 0x1_0000 + x - 0xFFFF == (k - 1) * 0x1_0000 + x + 1;
    }
  }

  // ------------------------------------------------------------------
  // The source's algorithm
  // ------------------------------------------------------------------

  /** `_carry_around_add(a, b)`: `(c >> 16) + (c & 0xffff)` with `c = a + b`. */
  function CarryAroundAdd(a: nat, b: nat): (r: nat)
    ensures Res(r) == Res(a + b)
    ensures r == 0 <==> a + b == 0
    ensures a <= 0xFFFF && b <= 0xFFFF ==> r <= 0xFFFF
  {
    var c := a + b;
    assert c == c / 0x1_0000 * 0x1_0000 + c % 0x1_0000;
    ShiftWord(c / 0x1_0000, c % 0x1_0000);
    c / 0x1_0000 + c % 0x1_0000
  }

  /** The `while header > 0` loop: the bytes of `n`, least significant first,
      stopping at the most significant non-zero byte. */
  function LowBytes(n: nat): seq<Byte>
    decreases n
  {
    if n == 0 then [] else [n % 0x100] + LowBytes(n / 0x100)
  }

  /** One zero byte appended to a list of odd length. */
  function PadEven(ws: seq<Byte>): seq<Byte>
  {
    if |ws| % 2 == 1 then ws + [0] else ws
  }

  /** The `for` loop: fold `(words[i+1] << 8) + words[i]` into the running
      sum with end-around carry. */
  function SumPairs(acc: nat, ws: seq<Byte>): nat
    decreases |ws|
  {
    if |ws| < 2 then acc
    else SumPairs(CarryAroundAdd(acc, (ws[1] as nat) * 0x100 + ws[0]), ws[2..])
  }

  /** `~x & 0xffff` for a non-negative `x`. */
  function Complement16(x: nat): nat
  {
    0xFFFF - x % 0x1_0000
  }

  /** `chksum(data)`, as the source computes it. */
  function Checksum(data: seq<Byte>): (r: nat)
    ensures r <= 0xFFFF
  {
    Complement16(SumPairs(0, PadEven(LowBytes(Value(data)))))
  }

  lemma {:induction false} PeelLowByte(words: seq<Byte>, n: nat)
    requires n > 0
    ensures words + LowBytes(n) == (words + [n % 0x100]) + LowBytes(n / 0x100)
  {
  }

  lemma {:induction false} AddPair(sum: nat, words: seq<Byte>, i: nat)
    requires i + 2 <= |words|
    ensures SumPairs(sum, words[i..])
         == SumPairs(CarryAroundAdd(sum, (words[i + 1] as nat) * 0x100 + words[i]), words[i + 2..])
  {
    assert words[i..][2..] == words[i + 2..];
  }

  /** The first loop of `chksum`: peel `n` into bytes, least significant
      first, until nothing is left. */
  method SplitBytes(n0: nat) returns (words: seq<Byte>)
    ensures words == LowBytes(n0)
  {
    var n := n0;
    words := [];
    while n > 0
      invariant words + LowBytes(n) == LowBytes(n0)
      decreases n
    {
      PeelLowByte(words, n);
      words := words + [n % 0x100];
      n := n / 0x100;
    }
  }

  /** `chksum`: split the header's value into bytes, pad to an even count,
      then fold the 16-bit words (low byte first) with `CarryAroundAdd`. */
  method Chksum(header: seq<Byte>) returns (r: nat)
    ensures r == Checksum(header)
  {
    var words := SplitBytes(Value(header));
    if |words| % 2 == 1 {
      words := words + [0];
    }
    assert words == PadEven(LowBytes(Value(header)));
    var sum := FoldWords(words);
    r := Complement16(sum);
  }

  /** The second loop of `chksum`: for `i` in `range(0, len(words), 2)`,
      add the 16-bit word `(words[i+1] << 8) + words[i]` into the running
      sum with end-around carry; the sum stays a 16-bit value throughout. */
  method FoldWords(words: seq<Byte>) returns (sum: nat)
    requires |words| % 2 == 0
    ensures sum == SumPairs(0, words) && sum <= 0xFFFF
  {
    var pairs := |words| / 2;
    sum := 0;
    var k := 0;
    while k < pairs
      invariant k <= pairs
      invariant sum <= 0xFFFF
      invariant SumPairs(sum, words[2 * k..]) == SumPairs(0, words)
    {
      var i := 2 * k;
      var word16 := (words[i + 1] as nat) * 0x100 + words[i];
      AddPair(sum, words, i);
      sum := CarryAroundAdd(sum, word16);
      k := k + 1;
    }
    assert words[2 * k..] == [];
  }

  // ------------------------------------------------------------------
  // Closed form: the result depends only on Value(data) modulo 0xFFFF
  // ------------------------------------------------------------------

  lemma {:induction false} ResBelow(x: nat)
    ensures Res(x) < 0xFFFF
    decreases x
  {
    if x >= 0xFFFF {
      ResBelow(x - 0xFFFF);
    }
  }

  /** The one's-complement representative of `n`: 0 for 0, otherwise the
      value in 1..0xFFFF congruent to `n` modulo 0xFFFF. */
  function OnesResidue(n: nat): (r: nat)
    ensures r <= 0xFFFF && Res(r) == Res(n) && (r == 0 <==> n == 0)
  {
    ResBelow(n);
    if n == 0 then 0 else if Res(n) == 0 then 0xFFFF else Res(n)
  }

  /** The representative in plain modular terms: `n mod 0xFFFF`, except that
      a non-zero multiple of 0xFFFF is represented by 0xFFFF (negative zero). */
  lemma {:induction false} OnesResidueMod(n: nat)
    ensures OnesResidue(n) == if n == 0 then 0 else if n % 0xFFFF == 0 then 0xFFFF else n % 0xFFFF
  {
    ResIsMod(n);
  }

  /** Any 16-bit value with the same residue and zero-ness as `n` is
      OnesResidue(n). */
  lemma {:induction false} ResidueUnique(n: nat, r: nat)
    requires r <= 0xFFFF && Res(r) == Res(n) && (r == 0 <==> n == 0)
    ensures r == OnesResidue(n)
  {
  }

  /** The plain (carry-free) sum of the pairs SumPairs adds. */
  function PairTotal(ws: seq<Byte>): nat
    decreases |ws|
  {
    if |ws| < 2 then 0 else (ws[1] as nat) * 0x100 + ws[0] + PairTotal(ws[2..])
  }

  /** End-around carry addition of the pairs gives the one's-complement
      residue of their plain sum, whatever the order. */
  lemma {:induction false} SumPairsResidue(acc: nat, ws: seq<Byte>)
    requires acc <= 0xFFFF
    ensures SumPairs(acc, ws) == OnesResidue(acc + PairTotal(ws))
    decreases |ws|
  {
    if |ws| < 2 {
      ResidueUnique(acc, acc);
    } else {
      var w := (ws[1] as nat) * 0x100 + ws[0];
      var c := CarryAroundAdd(acc, w);
      var rest := PairTotal(ws[2..]);
      var total := acc + PairTotal(ws);
      assert total == acc + w + rest;
      SumPairsResidue(c, ws[2..]);
      ResAdd(c, acc + w, rest);
      SameResidue(c + rest, total);
      assert SumPairs(acc, ws) == SumPairs(c, ws[2..]);
    }
  }

  /** Numbers that are congruent modulo 0xFFFF and zero together have the
      same one's-complement representative. */
  lemma {:induction false} SameResidue(x: nat, y: nat)
    requires Res(x) == Res(y) && (x == 0 <==> y == 0)
    ensures OnesResidue(x) == OnesResidue(y)
  {
    ResidueUnique(y, OnesResidue(x));
  }

  /** The pairs of the padded low-end byte list of `n` sum to `n` modulo
      0xFFFF, and to zero only for `n == 0`. */
  lemma {:induction false} LowBytesTotal(n: nat)
    ensures Res(PairTotal(PadEven(LowBytes(n)))) == Res(n)
    ensures PairTotal(PadEven(LowBytes(n))) == 0 <==> n == 0
    decreases n
  {
    if n == 0 {
    } else if n < 0x100 {
      assert LowBytes(n) == [n];
      assert PadEven(LowBytes(n)) == [n, 0];
    } else {
      var m := n / 0x1_0000;
      var lo: Byte := n % 0x100;
      var hi: Byte := n / 0x100 % 0x100;
      assert n / 0x100 / 0x100 == m;
      assert LowBytes(n) == [lo, hi] + LowBytes(m);
      var tail := LowBytes(m);
      assert PadEven(LowBytes(n)) == [lo, hi] + PadEven(tail);
      assert ([lo, hi] + PadEven(tail))[2..] == PadEven(tail);
      LowBytesTotal(m);
      var t := PairTotal(PadEven(tail));
      assert PairTotal(PadEven(LowBytes(n))) == (hi as nat) * 0x100 + lo + t;
      assert (hi as nat) * 0x100 + lo == n % 0x1_0000;
      assert n == m * 0x1_0000 + n % 0x1_0000;
      ShiftWord(m, n % 0x1_0000);
      ResAdd(t, m, n % 0x1_0000);
    }
  }

  /** The checksum is the complement of the one's-complement residue of the
      buffer's big-endian value. */
  lemma {:induction false} ChecksumOfValue(data: seq<Byte>)
    ensures Checksum(data) == 0xFFFF - OnesResidue(Value(data))
  {
    var sum := SumPairs(0, PadEven(LowBytes(Value(data))));
    assert Checksum(data) == Complement16(sum);
    FoldedValue(Value(data));
    assert Complement16(sum) == 0xFFFF - sum;
  }

  /** The two loops of `chksum` reduce a value to its one's-complement
      residue. */
  lemma {:induction false} FoldedValue(n: nat)
    ensures SumPairs(0, PadEven(LowBytes(n))) == OnesResidue(n)
  {
    var ws := PadEven(LowBytes(n));
    var t := PairTotal(ws);
    SumPairsResidue(0, ws);
    assert SumPairs(0, ws) == OnesResidue(t);
    LowBytesTotal(n);
    SameResidue(t, n);
  }

  // ------------------------------------------------------------------
  // Properties of the source's checksum
  // ------------------------------------------------------------------

  /** An empty or all-zero buffer checksums to 0xFFFF. */
  lemma {:induction false} ChecksumAllZero(data: seq<Byte>)
    requires forall i :: 0 <= i < |data| ==> data[i] == 0
    ensures Checksum(data) == 0xFFFF
  {
    ValueIsZero(data);
    ChecksumOfValue(data);
  }

  /** Prepending zero bytes never changes the checksum. */
  lemma {:induction false} ChecksumLeadingZero(data: seq<Byte>)
    ensures Checksum([0] + data) == Checksum(data)
  {
    ValueLeadingZero(data);
    ChecksumOfValue(data);
    ChecksumOfValue([0] + data);
  }

  /** The arithmetic step of ValueConcatEven: appending one 16-bit word to
      both sides of a congruence keeps it. */
  lemma {:induction false} AppendWordResidue(ab: nat, a: nat, b: nat, w: nat)
    requires Res(ab) == Res(a + b)
    ensures Res(ab * 0x1_0000 + w) == Res(a + (b * 0x1_0000 + w))
  {
    ShiftWord(ab, w);
    ResAdd(ab, a + b, w);
    ShiftWord(b, a + w);
    assert a + (b * 0x1_0000 + w) == b * 0x1_0000 + (a + w);
  }

  /** With an even number of bytes after the split, the value of a
      concatenation is the sum of the values modulo 0xFFFF. */
  lemma {:induction false} ValueConcatEven(a: seq<Byte>, b: seq<Byte>)
    requires |b| % 2 == 0
    ensures Res(Value(a + b)) == Res(Value(a) + Value(b))
    decreases |b|
  {
    if b == [] {
      assert a + b == a;
    } else {
      var b' := b[..|b| - 2];
      var x: Byte, y: Byte := b[|b| - 2], b[|b| - 1];
      assert b == b' + [x, y];
      assert a + b == (a + b') + [x, y];
      ValueSnoc2(a + b', x, y);
      ValueSnoc2(b', x, y);
      ValueConcatEven(a, b');
      AppendWordResidue(Value(a + b'), Value(a), Value(b'), (x as nat) * 0x100 + y);
    }
  }

  lemma {:induction false} ValueOfU16(w: nat)
    requires w <= MAX16
    ensures Value(U16(w)) == w
  {
    ValueSnoc2([], w / 0x100, w % 0x100);
    assert [] + [w / 0x100, w % 0x100] == U16(w);
  }

  /** A 16-bit field followed by an even number of bytes contributes its
      value, wherever it sits, to the residue of the whole buffer. */
  lemma {:induction false} ValueWithWord(p: seq<Byte>, w: nat, s: seq<Byte>)
    requires w <= MAX16 && |s| % 2 == 0
    ensures Res(Value(p + U16(w) + s)) == Res(Value(p) + w + Value(s))
  {
    ValueOfU16(w);
    ValueConcatEven(U16(w), s);
    ValueConcatEven(p, U16(w) + s);
    assert p + U16(w) + s == p + (U16(w) + s);
    ResAdd(Value(U16(w) + s), w + Value(s), Value(p));
  }

  /** Self-verification: writing the checksum of a buffer into its zeroed
      16-bit field makes the buffer checksum to 0. Because words are aligned
      from the end, the field needs an even number of bytes after it. */
  lemma {:induction false} ChecksumSelfVerifies(p: seq<Byte>, s: seq<Byte>)
    requires |s| % 2 == 0
    ensures Checksum(p + U16(Checksum(p + [0, 0] + s)) + s) == 0
  {
    var d := p + [0, 0] + s;
    var n := Value(d);
    var c := Checksum(d);
    assert c == 0xFFFF - OnesResidue(n) by {
      ChecksumOfValue(d);
    }
    var d' := p + U16(c) + s;
    var n' := Value(d');
    assert Res(n') == Res(n + c) by {
      assert U16(0) == [0, 0];
      ValueWithWord(p, 0, s);
      ValueWithWord(p, c, s);
      ResAdd(n, Value(p) + Value(s), c);
    }
    assert Res(n') == 0 by {
      ResAdd(n, OnesResidue(n), c);
      assert OnesResidue(n) + c == 0xFFFF;
    }
    if c == 0 {
      assert U16(0) == [0, 0];
      assert d' == d;
    } else {
      ValueIsZero(d');
      assert d'[|p|] == U16(c)[0] && d'[|p| + 1] == U16(c)[1];
    }
    assert n' != 0;
    ResidueUnique(n', 0xFFFF);
    ChecksumOfValue(d');
  }

  /** Replacing a word by one that is one more modulo 0xFFFF adds one to the
      residue of the buffer, when an even number of bytes follow it. */
  lemma {:induction false} IncrementWordResidue(p: seq<Byte>, a: nat, a2: nat, t: seq<Byte>)
    requires a <= MAX16 && a2 <= MAX16 && Res(a2) == Res(a + 1) && |t| % 2 == 0
    ensures Res(Value(p + U16(a2) + t)) == Res(Value(p + U16(a) + t) + 1)
  {
    ValueWithWord(p, a, t);
    ValueWithWord(p, a2, t);
    ResAdd(a2, a + 1, Value(p));
    ResAdd(Value(p) + a2, Value(p) + a + 1, Value(t));
    ResAdd(Value(p + U16(a) + t), Value(p) + a + Value(t), 1);
  }

  /** A stale checksum: fill the zeroed field of `p + U16(a) + q + [0, 0] + s`
      with its checksum, then replace the word `a` by a word `a2` that is one
      more modulo 0xFFFF (as an incremented counter is). The result no longer
      checksums to 0 but to 0xFFFE. */
  lemma {:induction false} ChecksumAfterIncrement(p: seq<Byte>, a: nat, a2: nat, q: seq<Byte>, s: seq<Byte>)
    requires a <= MAX16 && a2 <= MAX16 && Res(a2) == Res(a + 1)
    requires |q| % 2 == 0 && |s| % 2 == 0
    ensures Checksum(p + U16(a2) + q + U16(Checksum(p + U16(a) + q + [0, 0] + s)) + s) == 0xFFFE
  {
    var c := Checksum(p + U16(a) + q + [0, 0] + s);
    var t := q + U16(c) + s;
    var e := p + U16(a) + t;
    var o := p + U16(a2) + t;
    assert Res(Value(e)) == 0 by {
      ChecksumSelfVerifies(p + U16(a) + q, s);
      assert p + U16(a) + q + U16(c) + s == e;
      ChecksumOfValue(e);
      ResidueUnique(Value(e), 0xFFFF);
    }
    IncrementWordResidue(p, a, a2, t);
    ResSum(Value(e), 1);
    ResidueUnique(Value(o), 1);
    ChecksumOfValue(o);
    assert p + U16(a2) + q + U16(c) + s == o;
  }

  // ------------------------------------------------------------------
  // RFC 1071 reference
  // ------------------------------------------------------------------

  /** Sum of the 16-bit big-endian words of `d` taken from byte 0, an odd
      final byte padded on the right with a zero, as section 3.1 of RFC 793
      prescribes. */
  function WordSum(d: seq<Byte>): nat
    decreases |d|
  {
    if |d| == 0 then 0
    else if |d| == 1 then (d[0] as nat) * 0x100
    else (d[0] as nat) * 0x100 + d[1] + WordSum(d[2..])
  }

  /** `while (sum >> 16) sum = (sum & 0xffff) + (sum >> 16);` */
  function FoldCarries(s: nat): nat
    decreases s
  {
    if s <= 0xFFFF then s else FoldCarries(s % 0x1_0000 + s / 0x1_0000)
  }

  /** The RFC 1071 checksum: the complement of the folded word sum. */
  function Rfc1071Checksum(d: seq<Byte>): nat
  {
    Complement16(FoldCarries(WordSum(d)))
  }

  lemma {:induction false} FoldCarriesResidue(s: nat)
    ensures FoldCarries(s) == OnesResidue(s)
    decreases s
  {
    if s <= 0xFFFF {
      ResidueUnique(s, s);
    } else {
      var t := s % 0x1_0000 + s / 0x1_0000;
      FoldCarriesResidue(t);
      assert s == s / 0x1_0000 * 0x1_0000 + s % 0x1_0000;
      ShiftWord(s / 0x1_0000, s % 0x1_0000);
      ResidueUnique(s, OnesResidue(t));
    }
  }

  /** For even lengths the front-aligned word sum has the residue and the
      zero-ness of the big-endian value. */
  lemma {:induction false} WordSumValue(d: seq<Byte>)
    requires |d| % 2 == 0
    ensures Res(WordSum(d)) == Res(Value(d))
    ensures WordSum(d) == 0 <==> Value(d) == 0
    decreases |d|
  {
    if d != [] {
      var r := d[2..];
      var x: Byte, y: Byte := d[0], d[1];
      var w := (x as nat) * 0x100 + y;
      assert d == [x, y] + r;
      WordSumValue(r);
      ValueConcatEven([x, y], r);
      ValueSnoc2([], x, y);
      assert [] + [x, y] == [x, y];
      ResAdd(WordSum(r), Value(r), w);
      ValueIsZero(d);
      ValueIsZero(r);
      if Value(d) == 0 {
        assert x == d[0] == 0 && y == d[1] == 0;
        assert forall i :: 0 <= i < |r| ==> r[i] == d[i + 2];
      }
      if WordSum(d) == 0 {
        assert forall i :: 0 <= i < |d| ==> (i < 2 || d[i] == r[i - 2]);
      }
    }
  }

  /** For even-length input the source's checksum is the RFC 1071 checksum. */
  lemma {:induction false} ChecksumMatchesRfc1071(d: seq<Byte>)
    requires |d| % 2 == 0
    ensures Checksum(d) == Rfc1071Checksum(d)
  {
    ChecksumOfValue(d);
    WordSumValue(d);
    FoldCarriesResidue(WordSum(d));
    ResidueUnique(Value(d), OnesResidue(WordSum(d)));
  }

  /** For odd-length input the source's checksum is the RFC 1071 checksum of
      the input with a zero byte in FRONT. */
  lemma {:induction false} ChecksumOddLeadingPad(d: seq<Byte>)
    requires |d| % 2 == 1
    ensures Checksum(d) == Rfc1071Checksum([0] + d)
  {
    ChecksumLeadingZero(d);
    ChecksumMatchesRfc1071([0] + d);
  }

  /** The worked example of section 3 of RFC 1071: the bytes 00 01 f2 03
      f4 f5 f6 f7 checksum to 0x220D. */
  lemma {:induction false} Rfc1071Example(d: seq<Byte>)
    requires d == [0x00, 0x01, 0xf2, 0x03, 0xf4, 0xf5, 0xf6, 0xf7]
    ensures Checksum(d) == 0x220D
  {
    Rfc1071ExampleSum(d);
    ChecksumMatchesRfc1071(d);
  }

  /** The RFC 1071 computation of the example: the words sum to 0x2DDF0,
      which folds to 0xDDF2. */
  lemma {:induction false} Rfc1071ExampleSum(d: seq<Byte>)
    requires d == [0x00, 0x01, 0xf2, 0x03, 0xf4, 0xf5, 0xf6, 0xf7]
    ensures |d| % 2 == 0 && Rfc1071Checksum(d) == 0x220D
  {
    var d1 := d[2..];
    var d2 := d1[2..];
    var d3 := d2[2..];
    assert d3 == [0xf6, 0xf7] && d3[2..] == [];
    assert WordSum(d3) == 0xf6f7;
    assert WordSum(d2) == 0xf4f5 + 0xf6f7;
    assert WordSum(d1) == 0xf203 + 0xf4f5 + 0xf6f7;
    assert WordSum(d) == 0x2DDF0;
    assert FoldCarries(0x2DDF0) == 0xDDF2;
  }

  /** A one-byte buffer shows the padding differs from RFC 1071's: the
      source reads 01 as the word 0x0001, RFC 1071 as 0x0100. */
  lemma {:induction false} OddPaddingExample()
    ensures Checksum([0x01]) == 0xFFFE
    ensures Rfc1071Checksum([0x01]) == 0xFEFF
  {
    ChecksumOfValue([0x01]);
    assert Value([0x01]) == 1;
  }
}
