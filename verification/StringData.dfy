/** What strings are made of: code units, their two encodings, hashing, span comparison and code-unit order. */
module StringData {
  import opened Words

  type Unit = x: int | 0 <= x < 0x1_0000

  const UTF8_1B_MAX: Unit := 0x7f
  const SMALL_STRING_SIZE: nat := 128

  /** NUL is not an ASCII character here: the subtraction wraps around in 32 bits. */
  predicate IsASCIICharacter(data: Unit) {
    (data - 1) % 0x1_0000_0000 < UTF8_1B_MAX
  }

  ghost predicate AllAscii(s: seq<Unit>) {
    forall i {:trigger s[i]} :: 0 <= i < |s| ==> 1 <= s[i] <= UTF8_1B_MAX
  }

  lemma AsciiIs(data: Unit, s: seq<Unit>)
    ensures IsASCIICharacter(data) <==> 1 <= data < 0x80
    ensures AllAscii(s) <==> forall i {:trigger s[i]} :: 0 <= i < |s| ==> IsASCIICharacter(s[i])
  {
  }

  lemma AsciiConcat(s: seq<Unit>, t: seq<Unit>)
    ensures AllAscii(s + t) <==> AllAscii(s) && AllAscii(t)
  {
    if AllAscii(s + t) {
      assert forall i :: 0 <= i < |s| ==> s[i] == (s + t)[i];
      assert forall i :: 0 <= i < |t| ==> t[i] == (s + t)[|s| + i];
    }
  }

  /** The hash of `s` continued from `seed`, modulo 2^32. */
  function Hash(s: seq<Unit>, seed: U32): U32 {
    if |s| == 0 then seed else Hash(s[1..], (31 * seed + s[0]) % 0x1_0000_0000)
  }

  /** Hashing a second part from the hash of the first part is hashing the two parts joined. */
  lemma {:induction false} HashConcat(s: seq<Unit>, t: seq<Unit>, seed: U32)
    ensures Hash(s + t, seed) == Hash(t, Hash(s, seed))
  {
    if |s| == 0 {
      assert s + t == t;
    } else {
      assert (s + t)[1..] == s[1..] + t;
      HashConcat(s[1..], t, (31 * seed + s[0]) % 0x1_0000_0000);
    }
  }

  /** How much of two long spans is compared: as many bytes as there are elements, as written, or all of them. */
  datatype SpanCheck = ElementCountBytes | AllBytes

  /** The bytes of 16-bit units in memory, low byte first. */
  function UnitBytes(s: seq<Unit>): (r: seq<Byte>)
    ensures |r| == 2 * |s|
  {
    seq(2 * |s|, k requires 0 <= k < 2 * |s| => if k % 2 == 0 then s[k / 2] % 0x100 else s[k / 2] / 0x100)
  }

  /** What the comparison of two 16-bit spans of equal length answers. */
  ghost predicate SpansMatch(check: SpanCheck, s: seq<Unit>, t: seq<Unit>) {
    && |s| == |t|
    && if |s| < SMALL_STRING_SIZE || check.AllBytes? then s == t else UnitBytes(s)[..|s|] == UnitBytes(t)[..|t|]
  }

  lemma UnitFromBytes(s: seq<Unit>, i: nat)
    requires i < |s|
    ensures s[i] == UnitBytes(s)[2 * i] as int + 0x100 * UnitBytes(s)[2 * i + 1] as int
    ensures UnitBytes(s)[2 * i] == s[i] % 0x100
  {
    assert 2 * i / 2 == i && (2 * i + 1) / 2 == i;
  }

  /** The first `m` bytes agree exactly if the units that lie in them do, and the low byte of a unit that begins there. */
  lemma BytesAgreeIff(s: seq<Unit>, t: seq<Unit>, m: nat)
    requires |s| == |t| && m <= 2 * |s|
    ensures UnitBytes(s)[..m] == UnitBytes(t)[..m] <==>
      forall i {:trigger s[i]} {:trigger t[i]} :: 0 <= i < |s| ==>
        (2 * i + 1 < m ==> s[i] == t[i]) && (2 * i + 1 == m ==> s[i] % 0x100 == t[i] % 0x100)
  {
    var a, b := UnitBytes(s), UnitBytes(t);
    if a[..m] == b[..m] {
      forall i | 0 <= i < |s|
        ensures (2 * i + 1 < m ==> s[i] == t[i]) && (2 * i + 1 == m ==> s[i] % 0x100 == t[i] % 0x100)
      {
        hide UnitBytes;
        UnitFromBytes(s, i);
        UnitFromBytes(t, i);
        if 2 * i < m {
          assert a[2 * i] == a[..m][2 * i] == b[..m][2 * i] == b[2 * i];
        }
        if 2 * i + 1 < m {
          assert a[2 * i + 1] == a[..m][2 * i + 1] == b[..m][2 * i + 1] == b[2 * i + 1];
        }
      }
    }
    if forall i {:trigger s[i]} {:trigger t[i]} :: 0 <= i < |s| ==>
        (2 * i + 1 < m ==> s[i] == t[i]) && (2 * i + 1 == m ==> s[i] % 0x100 == t[i] % 0x100) {
      forall k | 0 <= k < m
        ensures a[k] == b[k]
      {
        assert s[k / 2] % 0x100 == t[k / 2] % 0x100;
      }
    }
  }

  /** What is compared: all units of short spans, or if all bytes are compared; otherwise those in the first half, and of
      the unit in the middle of a span of odd length the low byte. */
  lemma SpansMatchIff(check: SpanCheck, s: seq<Unit>, t: seq<Unit>)
    ensures SpansMatch(check, s, t) <==>
      && |s| == |t|
      && forall i {:trigger s[i]} {:trigger t[i]} :: 0 <= i < |s| ==>
           && (|s| < 128 || check == AllBytes || 2 * i + 1 < |s| ==> s[i] == t[i])
           && (2 * i + 1 == |s| ==> s[i] % 0x100 == t[i] % 0x100)
  {
    hide UnitBytes;
    if |s| == |t| && |s| >= 128 && check != AllBytes {
      BytesAgreeIff(s, t, |s|);
    }
  }

  ghost predicate Exact(check: SpanCheck, n: nat) {
    check.AllBytes? || n < SMALL_STRING_SIZE
  }

  lemma EqualSpansMatch(check: SpanCheck, s: seq<Unit>, t: seq<Unit>)
    ensures s == t ==> SpansMatch(check, s, t)
    ensures SpansMatch(check, s, t) ==> |s| == |t|
    ensures Exact(check, |s|) && SpansMatch(check, s, t) ==> s == t
  {
  }

  lemma WrapAround(x: int, q: nat)
    ensures (x - q * 0x1_0000_0000) % 0x1_0000_0000 == x % 0x1_0000_0000
  {
    if q > 0 {
      WrapAround(x, q - 1);
    }
  }

  /** The hash before it wraps around. */
  function Polynomial(s: seq<Unit>, seed: nat): nat {
    if |s| == 0 then seed else Polynomial(s[1..], 31 * seed + s[0])
  }

  lemma {:induction false} HashIsPolynomial(s: seq<Unit>, seed: nat)
    ensures Hash(s, seed % 0x1_0000_0000) == Polynomial(s, seed) % 0x1_0000_0000
  {
    if |s| > 0 {
      var h, q := seed % 0x1_0000_0000, seed / 0x1_0000_0000;
      assert 31 * h + s[0] == 31 * seed + s[0] - 31 * q * 0x1_0000_0000;
      WrapAround(31 * seed + s[0], 31 * q);
      HashIsPolynomial(s[1..], 31 * seed + s[0]);
    }
  }

  /** The value of five units as digits to base 31. */
  function Value(w: seq<Unit>): int
    requires |w| == 5
  {
    var a: int, b: int, c: int, d: int, e: int := w[0], w[1], w[2], w[3], w[4];
    923521 * a + 29791 * b + 961 * c + 31 * d + e
  }

  lemma PolynomialOfFive(w: seq<Unit>, seed: nat)
    requires |w| == 5
    ensures Polynomial(w, seed) == 28629151 * seed + Value(w)
  {
    var h1 := 31 * seed + w[0];
    var h2 := 31 * h1 + w[1];
    var h3 := 31 * h2 + w[2];
    var h4 := 31 * h3 + w[3];
    assert w[1..][1..] == w[2..] && w[2..][1..] == w[3..] && w[3..][1..] == w[4..] && w[4..][1..] == [];
    assert Polynomial(w[4..], h4) == 31 * h4 + w[4];
    assert Polynomial(w[3..], h3) == Polynomial(w[4..], h4);
    assert Polynomial(w[2..], h2) == Polynomial(w[3..], h3);
    assert Polynomial(w[1..], h1) == Polynomial(w[2..], h2);
  }

  /** Five units that differ from `w` and hash alike. One unit up and the next one down by 31, or the other way round, will
      do; where there is no room for that in any of the four places, the units are at the one end or at the other, and there
      is room for adding the digits of 2^32 or for taking them away. */
  function Instead(w: seq<Unit>): (r: seq<Unit>)
    requires |w| == 5
    ensures |r| == 5 && r != w
    ensures Value(r) == Value(w) || Value(r) == Value(w) + 0x1_0000_0000 || Value(r) == Value(w) - 0x1_0000_0000
  {
    if w[0] < 0xffff && w[1] >= 31 then w[0 := w[0] + 1][1 := w[1] - 31]
    else if w[0] > 0 && w[1] <= 0xffff - 31 then w[0 := w[0] - 1][1 := w[1] + 31]
    else if w[1] < 0xffff && w[2] >= 31 then w[1 := w[1] + 1][2 := w[2] - 31]
    else if w[1] > 0 && w[2] <= 0xffff - 31 then w[1 := w[1] - 1][2 := w[2] + 31]
    else if w[2] < 0xffff && w[3] >= 31 then w[2 := w[2] + 1][3 := w[3] - 31]
    else if w[2] > 0 && w[3] <= 0xffff - 31 then w[2 := w[2] - 1][3 := w[3] + 31]
    else if w[3] < 0xffff && w[4] >= 31 then w[3 := w[3] + 1][4 := w[4] - 31]
    else if w[3] > 0 && w[4] <= 0xffff - 31 then w[3 := w[3] - 1][4 := w[4] + 31]
    else if w[0] == 0 then [4650, 19, 29, 24, w[4] + 4]
    else [0xffff - 4650, 0xffff - 19, 0xffff - 29, 0xffff - 24, w[4] - 4]
  }

  lemma InsteadHashesAlike(w: seq<Unit>, seed: U32)
    requires |w| == 5
    ensures Hash(Instead(w), seed) == Hash(w, seed)
  {
    hide Value, Instead;
    var r := Instead(w);
    HashIsPolynomial(w, seed);
    HashIsPolynomial(r, seed);
    PolynomialOfFive(w, seed);
    PolynomialOfFive(r, seed);
    var x := Polynomial(w, seed);
    if Value(r) == Value(w) + 0x1_0000_0000 {
      WrapAround(Polynomial(r, seed), 1);
    } else if Value(r) == Value(w) - 0x1_0000_0000 {
      WrapAround(x, 1);
    }
  }

  /** Spans that agree on their first `m` units agree on the bytes of those. */
  lemma SameBytes(s: seq<Unit>, t: seq<Unit>, m: nat)
    requires |s| == |t| && m <= |s| && s[..m] == t[..m]
    ensures UnitBytes(s)[..2 * m] == UnitBytes(t)[..2 * m]
  {
    forall k | 0 <= k < 2 * m
      ensures UnitBytes(s)[k] == UnitBytes(t)[k]
    {
      assert s[k / 2] == s[..m][k / 2] == t[..m][k / 2] == t[k / 2];
    }
  }

  /** Two different strings of the same length and hash that are taken for equal. */
  ghost predicate Confused(s: seq<Unit>, t: seq<Unit>) {
    s != t && SpansMatch(ElementCountBytes, s, t) && Hash(s, 0) == Hash(t, 0)
  }

  /** Another string of the same hash, with the unit at `m` and all but the last ten as they were. */
  function Twin(s: seq<Unit>, m: nat): (t: seq<Unit>)
    requires |s| >= SMALL_STRING_SIZE
    ensures |t| == |s|
  {
    var k := if m < |s| - 5 then |s| - 5 else |s| - 10;
    s[..k] + Instead(s[k..k + 5]) + s[k + 5..]
  }

  /** Exchanging five units in the last ten changes neither the hash nor the bytes that are compared. */
  lemma Exchanged(a: seq<Unit>, w: seq<Unit>, b: seq<Unit>, seed: U32)
    requires |w| == 5
    ensures Hash(a + w + b, seed) == Hash(a + Instead(w) + b, seed)
  {
    hide Hash, Instead;
    HashConcat(a + w, b, seed);
    HashConcat(a, w, seed);
    HashConcat(a + Instead(w), b, seed);
    HashConcat(a, Instead(w), seed);
    InsteadHashesAlike(w, Hash(a, seed));
  }

  lemma ExchangedMatch(a: seq<Unit>, w: seq<Unit>, b: seq<Unit>)
    requires |w| == 5 && |b| <= 5 && |a| + 5 + |b| >= SMALL_STRING_SIZE
    ensures var s, t := a + w + b, a + Instead(w) + b;
      SpansMatch(ElementCountBytes, s, t) && s != t && s[..|s| - 10] == t[..|s| - 10]
  {
    hide UnitBytes, Instead;
    var s, t, k := a + w + b, a + Instead(w) + b, |a|;
    var n := |s|;
    assert s[k..k + 5] == w && t[k..k + 5] == Instead(w);
    assert s[..k] == a && t[..k] == a;
    assert s[..n - 10] == a[..n - 10] && t[..n - 10] == a[..n - 10];
    SameBytes(s, t, k);
    Shorter(UnitBytes(s), UnitBytes(t), n, 2 * k);
  }

  lemma Shorter(s: seq<Byte>, t: seq<Byte>, n: nat, m: nat)
    requires n <= m <= |s| && m <= |t| && s[..m] == t[..m]
    ensures s[..n] == t[..n]
  {
    assert s[..n] == s[..m][..n] && t[..n] == t[..m][..n];
  }

  lemma TwinKeeps(s: seq<Unit>, m: nat)
    requires |s| >= SMALL_STRING_SIZE && m < |s|
    ensures Twin(s, m)[m] == s[m]
  {
    hide Instead;
  }

  lemma TwinParts(s: seq<Unit>, m: nat) returns (a: seq<Unit>, w: seq<Unit>, b: seq<Unit>)
    requires |s| >= SMALL_STRING_SIZE
    ensures |w| == 5 && |b| <= 5 && s == a + w + b && Twin(s, m) == a + Instead(w) + b
  {
    hide Instead;
    var k := if m < |s| - 5 then |s| - 5 else |s| - 10;
    a, w, b := s[..k], s[k..k + 5], s[k + 5..];
  }

  /** Any string of 128 units or more is confused with its twin. */
  lemma TwinIsConfused(s: seq<Unit>, m: nat)
    requires |s| >= SMALL_STRING_SIZE
    ensures var t := Twin(s, m);
      && Confused(s, t) && (m < |s| ==> t[m] == s[m]) && t[..|s| - 10] == s[..|s| - 10]
      && forall seed: U32 :: Hash(s, seed) == Hash(t, seed)
  {
    hide Hash, SpansMatch, Instead, Twin;
    var a, w, b := TwinParts(s, m);
    ExchangedMatch(a, w, b);
    forall seed: U32
      ensures Hash(s, seed) == Hash(Twin(s, m), seed)
    {
      Exchanged(a, w, b, seed);
    }
    if m < |s| {
      TwinKeeps(s, m);
    }
  }

  /** As written, a 16-bit string can be taken for another one of the same length and hash exactly from 128 units on. */
  lemma ConfusableIff(s: seq<Unit>)
    requires !AllAscii(s)
    ensures (exists t :: !AllAscii(t) && Confused(s, t)) <==> |s| >= SMALL_STRING_SIZE
  {
    if |s| >= SMALL_STRING_SIZE {
      var m :| 0 <= m < |s| && !(1 <= s[m] <= UTF8_1B_MAX);
      TwinIsConfused(s, m);
      assert Twin(s, m)[m] == s[m];
    }
  }

  /** `s` comes before `t` in code-unit order: at the first difference it has the smaller unit, or it ends. */
  ghost predicate Before(s: seq<Unit>, t: seq<Unit>) {
    exists k :: BeforeAt(s, t, k)
  }

  ghost predicate BeforeAt(s: seq<Unit>, t: seq<Unit>, k: int) {
    && 0 <= k <= |s| && k < |t|
    && s[..k] == t[..k]
    && (k == |s| || s[k] < t[k])
  }

  lemma BeforeTotal(s: seq<Unit>, t: seq<Unit>)
    ensures s == t || Before(s, t) || Before(t, s)
  {
    var k := 0;
    while k < |s| && k < |t| && s[k] == t[k]
      invariant 0 <= k <= |s| && k <= |t| && s[..k] == t[..k]
    {
      k := k + 1;
    }
    assert s == t || BeforeAt(s, t, k) || BeforeAt(t, s, k);
  }

  lemma BeforeIrreflexive(s: seq<Unit>, t: seq<Unit>)
    requires Before(s, t)
    ensures s != t && !Before(t, s)
  {
    var k :| BeforeAt(s, t, k);
    forall j
      ensures !BeforeAt(t, s, j)
    {
      if 0 <= j < k {
        assert s[..k][j] == t[..k][j];
      } else if k < j <= |t| && j <= |s| {
        assert t[..j][k] == t[k] && s[..j][k] == s[k];
      }
    }
  }

  lemma BeforeTransitive(s: seq<Unit>, t: seq<Unit>, u: seq<Unit>)
    requires Before(s, t) && Before(t, u)
    ensures Before(s, u)
  {
    var j :| BeforeAt(s, t, j);
    var k :| BeforeAt(t, u, k);
    var m := if j < k then j else k;
    assert s[..m] == s[..j][..m] == t[..j][..m] == t[..k][..m] == u[..k][..m] == u[..m];
    if j < k {
      assert t[..k][j] == u[..k][j];
    } else if k < j {
      assert s[..j][k] == t[..j][k];
    }
    assert BeforeAt(s, u, m);
  }

  /** One unit comes before another as its number does. */
  lemma BeforeUnits(a: Unit, b: Unit)
    ensures Before([a], [b]) <==> a < b
  {
    if a < b {
      assert BeforeAt([a], [b], 0);
    }
  }

  /** A string comes before all that it begins. */
  lemma BeforeLonger(s: seq<Unit>, t: seq<Unit>)
    requires |t| > 0
    ensures Before(s, s + t)
  {
    assert BeforeAt(s, s + t, |s|);
  }

  /** A common beginning is of no account. */
  lemma BeforePrefix(p: seq<Unit>, s: seq<Unit>, t: seq<Unit>)
    ensures Before(p + s, p + t) <==> Before(s, t)
  {
    var n := |p|;
    if k :| BeforeAt(s, t, k) {
      assert (p + s)[..n + k] == p + s[..k] && (p + t)[..n + k] == p + t[..k];
      assert BeforeAt(p + s, p + t, n + k);
    }
    if k :| BeforeAt(p + s, p + t, k) {
      if k < n {
        assert (p + s)[k] == p[k] == (p + t)[k];
      } else {
        assert s[..k - n] == (p + s)[..k][n..] && t[..k - n] == (p + t)[..k][n..];
        assert BeforeAt(s, t, k - n);
      }
    }
  }

  /** Where two strings differ first, the order is that of the units there. */
  lemma BeforeAtDifference(s: seq<Unit>, t: seq<Unit>, k: nat)
    requires k < |s| && k < |t| && s[..k] == t[..k] && s[k] != t[k]
    ensures Before(s, t) <==> s[k] < t[k]
  {
    if s[k] < t[k] {
      assert BeforeAt(s, t, k);
    } else {
      assert BeforeAt(t, s, k);
      BeforeIrreflexive(t, s);
    }
  }

  ghost predicate MatchAt(s: seq<Unit>, needle: seq<Unit>, i: int) {
    0 <= i && i + |needle| <= |s| && s[i..i + |needle|] == needle
  }

  /** A match splits the string. */
  lemma MatchAtIff(s: seq<Unit>, needle: seq<Unit>, i: int)
    ensures MatchAt(s, needle, i) <==> exists before: seq<Unit>, after: seq<Unit> :: |before| == i && s == before + needle + after
  {
    if MatchAt(s, needle, i) {
      assert s == s[..i] + needle + s[i + |needle|..];
    }
    if before: seq<Unit>, after: seq<Unit> :| |before| == i && s == before + needle + after {
      assert s[i..i + |needle|] == needle;
    }
  }
}
