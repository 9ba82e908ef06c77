/**
 * Fixed-width integers, little-endian byte strings and UTF-8 well-formedness:
 * the vocabulary the on-disk format is written in.
 */
module Bytes {

  type Byte = b: int | 0 <= b < 0x100
  type U16 = x: int | 0 <= x < 0x1_0000
  type U32 = x: int | 0 <= x < 0x1_0000_0000
  type U64 = x: int | 0 <= x < 0x1_0000_0000_0000_0000

  /** 256^k. */
  function Pow256(k: nat): (r: nat)
    ensures r >= 1
  {
    if k == 0 then 1 else 256 * Pow256(k - 1)
  }

  lemma {:induction false} Pow256Monotonic(j: nat, k: nat)
    requires j <= k
    ensures Pow256(j) <= Pow256(k)
  {
    if j < k {
      Pow256Monotonic(j, k - 1);
    }
  }

  /** The low `len` bytes of `n`, least significant first: `to_le_bytes` followed by truncation. */
  function LittleEndian(n: nat, len: nat): (r: seq<Byte>)
    ensures |r| == len
  {
    if len == 0 then [] else [n % 256] + LittleEndian(n / 256, len - 1)
  }

  /** `from_le_bytes`: the value of a little-endian byte string. */
  function FromLittleEndian(s: seq<Byte>): nat
  {
    if s == [] then 0 else s[0] + 256 * FromLittleEndian(s[1..])
  }

  /** `len` zero bytes. */
  function Zeros(len: nat): (r: seq<Byte>)
    ensures |r| == len && forall i | 0 <= i < len :: r[i] == 0
  {
    if len == 0 then [] else [0] + Zeros(len - 1)
  }

  /** Reading `n` bytes from the suffix that starts at `i`. */
  lemma SuffixSlices(s: seq<Byte>, i: nat, n: nat)
    requires i + n <= |s|
    ensures s[i..][..n] == s[i..i + n] && s[i..][n..] == s[i + n..]
  {
  }

  /** A slice of the suffix that starts at `i`. */
  lemma SliceOfSuffix(s: seq<Byte>, i: nat, a: nat, b: nat)
    requires a <= b && i + b <= |s|
    ensures s[i..][a..b] == s[i + a..i + b]
  {
    assert forall k | 0 <= k < b - a :: s[i..][a..b][k] == s[i + a + k];
  }

  /** The three parts of `lb + str + after` found at offset `at` of `d`. */
  lemma PrefixedSlices(d: seq<Byte>, at: nat, lb: seq<Byte>, str: seq<Byte>, after: seq<Byte>)
    requires at <= |d| && d[at..] == lb + str + after
    ensures at + |lb| + |str| <= |d|
    ensures d[at..at + |lb|] == lb && d[at + |lb|..at + |lb| + |str|] == str
    ensures d[at + |lb| + |str|..] == after
  {
    assert d[at..][..|lb|] == d[at..at + |lb|];
    assert d[at..][|lb|..|lb| + |str|] == d[at + |lb|..at + |lb| + |str|];
    assert d[at..][|lb| + |str|..] == d[at + |lb| + |str|..];
  }

  /** The second of two parts that begin a sequence is found right after the first. */
  lemma InnerSlice(a: seq<Byte>, b: seq<Byte>, c: seq<Byte>)
    requires a + b <= c
    ensures c[|a|..|a| + |b|] == b
  {
    assert c[..|a| + |b|] == a + b;
  }

  /** Regrouping six concatenated parts from the right. */
  lemma SixParts(a: seq<Byte>, b: seq<Byte>, c: seq<Byte>, d: seq<Byte>, e: seq<Byte>, f: seq<Byte>)
    ensures a + b + c + d + e + f == a + (b + (c + (d + (e + f))))
  {
  }

  /** Where each of three length-prefixed fields starts, after a tag byte and an id. */
  lemma ThreeFieldSuffixes(p: seq<Byte>, tag: Byte, id: seq<Byte>, ln: seq<Byte>, n: seq<Byte>, lt: seq<Byte>, t: seq<Byte>, lm: seq<Byte>, m: seq<Byte>)
    requires p == [tag] + id + ln + n + lt + t + lm + m
    ensures p[1..1 + |id|] == id
    ensures p[1 + |id|..] == ln + n + (lt + t + (lm + m))
    ensures p[1 + |id| + |ln| + |n|..] == lt + t + (lm + m)
    ensures p[1 + |id| + |ln| + |n| + |lt| + |t|..] == lm + m + []
  {
  }

  /** Euclidean division is unique; used to regroup `n % 256 + 256 * ((n / 256) % m)`. */
  lemma DivModUnique(n: nat, d: nat, q: nat, r: nat)
    requires d > 0 && r < d && n == d * q + r
    ensures n / d == q && n % d == r
  {
    var q', r' := n / d, n % d;
    assert d * q' + r' == n;
    if q > q' {
      MulAtLeast(d, q - q');
    } else if q < q' {
      MulAtLeast(d, q' - q);
    }
  }

  lemma MulAtLeast(d: nat, k: nat)
    requires k >= 1
    ensures d * k >= d
  {
    assert d * k == d + d * (k - 1);
  }

  lemma ModOfDiv(n: nat, m: nat)
    requires m > 0
    ensures n % 256 + 256 * ((n / 256) % m) == n % (256 * m)
  {
    var q, b := (n / 256) / m, (n / 256) % m;
    assert n / 256 == m * q + b;
    assert n == (256 * m) * q + (256 * b + n % 256);
    DivModUnique(n, 256 * m, q, 256 * b + n % 256);
  }

  /** Reading back the low `len` bytes of `n` gives `n` modulo 256^len. */
  lemma {:induction false} LittleEndianRoundTrip(n: nat, len: nat)
    ensures FromLittleEndian(LittleEndian(n, len)) == n % Pow256(len)
  {
    if len > 0 {
      var s := LittleEndian(n, len);
      assert s[1..] == LittleEndian(n / 256, len - 1);
      LittleEndianRoundTrip(n / 256, len - 1);
      ModOfDiv(n, Pow256(len - 1));
    }
  }

  /** A value below 256^len survives the round trip unchanged. */
  lemma LittleEndianExact(n: nat, len: nat)
    requires n < Pow256(len)
    ensures FromLittleEndian(LittleEndian(n, len)) == n
  {
    LittleEndianRoundTrip(n, len);
  }

  /** A little-endian string of `k` bytes holds a value below 256^k. */
  lemma {:induction false} FromLittleEndianBound(s: seq<Byte>)
    ensures FromLittleEndian(s) < Pow256(|s|)
  {
    if s != [] {
      FromLittleEndianBound(s[1..]);
    }
  }

  /** Four little-endian bytes hold every 32-bit value exactly. */
  lemma LittleEndian32Exact(n: nat)
    requires n < 0x1_0000_0000
    ensures FromLittleEndian(LittleEndian(n, 4)) == n
  {
    assert Pow256(4) == 0x1_0000_0000;
    LittleEndianExact(n, 4);
  }

  /** Appending zero bytes (the high end of a little-endian number) does not change its value. */
  lemma {:induction false} ZeroExtension(s: seq<Byte>, k: nat)
    ensures FromLittleEndian(s + Zeros(k)) == FromLittleEndian(s)
  {
    if s == [] {
      assert s + Zeros(k) == Zeros(k);
      ZerosAreZero(k);
    } else {
      assert (s + Zeros(k))[1..] == s[1..] + Zeros(k);
      ZeroExtension(s[1..], k);
    }
  }

  lemma {:induction false} ZerosAreZero(k: nat)
    ensures FromLittleEndian(Zeros(k)) == 0
  {
    if k > 0 {
      assert Zeros(k)[1..] == Zeros(k - 1);
      ZerosAreZero(k - 1);
    }
  }

  /** The first `j` bytes of the `k`-byte encoding are the `j`-byte encoding. */
  lemma {:induction false} LittleEndianPrefix(n: nat, j: nat, k: nat)
    requires j <= k
    ensures LittleEndian(n, k)[..j] == LittleEndian(n, j)
  {
    if j > 0 {
      LittleEndianPrefix(n / 256, j - 1, k - 1);
    }
  }

  /** The concatenation of a sequence of byte strings, in order. */
  function Flatten(parts: seq<seq<Byte>>): (r: seq<Byte>)
  {
    if parts == [] then [] else Flatten(parts[..|parts| - 1]) + parts[|parts| - 1]
  }

  lemma FlattenAppend(parts: seq<seq<Byte>>, last: seq<Byte>)
    ensures Flatten(parts + [last]) == Flatten(parts) + last
  {
    assert (parts + [last])[..|parts|] == parts;
  }

  /** The parts, flattened, start with the first part. */
  lemma {:induction false} FlattenFront(parts: seq<seq<Byte>>)
    requires parts != []
    ensures Flatten(parts) == parts[0] + Flatten(parts[1..])
  {
    var n := |parts|;
    if n > 1 {
      var init := parts[..n - 1];
      FlattenFront(init);
      assert init[1..] == parts[1..][..n - 2];
      assert parts[1..][n - 2] == parts[n - 1];
    } else {
      assert parts[1..] == [] && parts[..0] == [];
    }
  }

  lemma {:induction false} FlattenPrefix(parts: seq<seq<Byte>>, k: nat)
    requires k <= |parts|
    ensures Flatten(parts[..k]) <= Flatten(parts)
  {
    if k < |parts| {
      FlattenPrefix(parts[..|parts| - 1], k);
      assert parts[..|parts| - 1][..k] == parts[..k];
    } else {
      assert parts[..k] == parts;
    }
  }

  /** Bytes 0x80..0xBF: a UTF-8 continuation byte. */
  predicate Continuation(b: Byte) {
    0x80 <= b <= 0xBF
  }

  /**
   * The length of the well-formed UTF-8 sequence that `s` starts with, or 0
   * when it starts with none (Table 3-7 of the Unicode Standard, which is what
   * `str::from_utf8` accepts): no overlong forms, no surrogates, nothing above U+10FFFF.
   */
  function LeadingCharWidth(s: seq<Byte>): (w: nat)
    requires s != []
    ensures w <= |s| && w <= 4
  {
    if s[0] < 0x80 then 1
    else if 0xC2 <= s[0] <= 0xDF then
      if |s| >= 2 && Continuation(s[1]) then 2 else 0
    else if s[0] == 0xE0 then
      if |s| >= 3 && 0xA0 <= s[1] <= 0xBF && Continuation(s[2]) then 3 else 0
    else if 0xE1 <= s[0] <= 0xEC || 0xEE <= s[0] <= 0xEF then
      if |s| >= 3 && Continuation(s[1]) && Continuation(s[2]) then 3 else 0
    else if s[0] == 0xED then
      if |s| >= 3 && 0x80 <= s[1] <= 0x9F && Continuation(s[2]) then 3 else 0
    else if s[0] == 0xF0 then
      if |s| >= 4 && 0x90 <= s[1] <= 0xBF && Continuation(s[2]) && Continuation(s[3]) then 4 else 0
    else if 0xF1 <= s[0] <= 0xF3 then
      if |s| >= 4 && Continuation(s[1]) && Continuation(s[2]) && Continuation(s[3]) then 4 else 0
    else if s[0] == 0xF4 then
      if |s| >= 4 && 0x80 <= s[1] <= 0x8F && Continuation(s[2]) && Continuation(s[3]) then 4 else 0
    else 0
  }

  /** Well-formed UTF-8: a sequence of well-formed characters, as `str::from_utf8` checks. */
  predicate ValidUtf8(s: seq<Byte>)
    decreases |s|
  {
    s == [] || (LeadingCharWidth(s) > 0 && ValidUtf8(s[LeadingCharWidth(s)..]))
  }

  /** The bytes of an ASCII string literal such as `b"WPILOG"`. */
  function Ascii(s: string): (r: seq<Byte>)
    requires forall i | 0 <= i < |s| :: s[i] < 128 as char
    ensures |r| == |s|
  {
    if s == [] then [] else [s[0] as int] + Ascii(s[1..])
  }

  /** ASCII text is well-formed UTF-8. */
  lemma {:induction false} AsciiIsUtf8(s: string)
    requires forall i | 0 <= i < |s| :: s[i] < 128 as char
    ensures ValidUtf8(Ascii(s))
  {
    if s != [] {
      AsciiIsUtf8(s[1..]);
      assert Ascii(s)[1..] == Ascii(s[1..]);
    }
  }
}
