/**
 * Immutable strings of the runtime (`UTxUniqueString`): the string hash,
 * C string comparison, and the unique-string object with its accessors,
 * cached hash code and comparison operators.
 *
 * A C string is modelled as the bytes in memory from its start: its text
 * is the part before the first NUL, the end of the sequence standing for a
 * terminator.  `strcmp` is modelled by the sign of its result, the only
 * thing the runtime looks at.
 */
module UniqueStrings {
  import opened Base
  import Utility

  /** The text of a C string: the bytes before the first NUL. */
  function UpToNul(s: seq<byte>): (r: seq<byte>)
    ensures |r| <= |s| && r == s[..|r|] && NoNul(r)
    ensures |r| < |s| ==> s[|r|] == 0
  {
    if s == [] || s[0] == 0 then []
    else [s[0]] + UpToNul(s[1..])
  }

  /** A NUL-free text followed by a terminator reads back as itself. */
  lemma {:induction false} UpToNulTerminated(t: seq<byte>, rest: seq<byte>)
    requires NoNul(t)
    ensures UpToNul(t + [0] + rest) == t
  {
    if t != [] {
      assert (t + [0] + rest)[1..] == t[1..] + [0] + rest;
      UpToNulTerminated(t[1..], rest);
    }
  }

  /** A plain `char` is signed: bytes from 128 up stand for negative values. */
  function SignedChar(c: byte): (v: int)
    ensures -128 <= v < 128 && v % 256 == c
  {
    if c < 128 then c else c - 256
  }

  /** The string hash: `h * 31 + c` folded over the characters, modulo 2^32. */
  function Hash(s: seq<byte>): (h: u32)
  {
    if s == [] then 0
    else (Hash(s[..|s| - 1]) * 31 + SignedChar(s[|s| - 1])) % U32Modulus
  }

  function Pow31(n: nat): nat
  {
    if n == 0 then 1 else 31 * Pow31(n - 1)
  }

  /** The polynomial `sum of c_i * 31^(n-1-i)` over the characters, unreduced. */
  function Polynomial(s: seq<byte>): int
  {
    if s == [] then 0
    else SignedChar(s[0]) * Pow31(|s| - 1) + Polynomial(s[1..])
  }

  /** Appending a character multiplies the polynomial by 31 and adds it. */
  lemma {:induction false} PolynomialSnoc(s: seq<byte>, c: byte)
    ensures Polynomial(s + [c]) == Polynomial(s) * 31 + SignedChar(c)
  {
    if s == [] {
      assert Polynomial([c]) == SignedChar(c) * Pow31(0) + Polynomial([]);
    } else {
      var h, p := SignedChar(s[0]), Pow31(|s| - 1);
      assert (s + [c])[1..] == s[1..] + [c];
      PolynomialSnoc(s[1..], c);
      assert h * (31 * p) == (h * p) * 31;
    }
  }

  lemma ModOfMultiplePlus(a: int, m: nat, x: int)
    requires m > 0
    ensures (a * 31 + x) % m == ((a % m) * 31 + x) % m
  {
    var q := a / m;
    var y := (a % m) * 31 + x;
    assert a == m * q + a % m;
    assert a * 31 + x == m * (31 * q) + y;
    assert y == m * (y / m) + y % m;
    assert a * 31 + x == m * (31 * q + y / m) + y % m;
    ModUnique(a * 31 + x, m, 31 * q + y / m, y % m);
  }

  /** The hash is the character polynomial reduced modulo 2^32. */
  lemma {:induction false} HashIsPolynomial(s: seq<byte>)
    ensures Hash(s) == Polynomial(s) % U32Modulus
  {
    if s != [] {
      var init, last := s[..|s| - 1], s[|s| - 1];
      HashIsPolynomial(init);
      assert s == init + [last];
      PolynomialSnoc(init, last);
      ModOfMultiplePlus(Polynomial(init), U32Modulus, SignedChar(last));
    }
  }

  /**
   * `hash_value`: scans a C string up to its terminator; a null string
   * has hash 0 and length 0.
   */
  method HashValue(str: Option<seq<byte>>) returns (hash: u32, length: nat)
    ensures str.None? ==> hash == 0 && length == 0
    ensures str.Some? ==> hash == Hash(UpToNul(str.value)) && length == |UpToNul(str.value)|
  {
    if str.None? {
      return 0, 0;
    }
    var s := str.value;
    var count := 0;
    hash := 0;
    while count < |s| && s[count] != 0
      invariant count <= |s| && NoNul(s[..count])
      invariant hash == Hash(s[..count])
    {
      assert s[..count + 1][..count] == s[..count];
      hash := (hash * 31 + SignedChar(s[count])) % U32Modulus;
      count := count + 1;
    }
    UpToNulIsScan(s, count);
    length := count;
  }

  lemma {:induction false} UpToNulIsScan(s: seq<byte>, n: nat)
    requires n <= |s| && NoNul(s[..n]) && (n < |s| ==> s[n] == 0)
    ensures UpToNul(s) == s[..n]
  {
    if n > 0 {
      assert s[1..][..n - 1] == s[1..n];
      UpToNulIsScan(s[1..], n - 1);
    }
  }

  /** Sign of `strcmp`: bytes compared as unsigned, a proper prefix first. */
  function Strcmp(a: seq<byte>, b: seq<byte>): (r: int)
    ensures -1 <= r <= 1
  {
    if a == [] && b == [] then 0
    else if a == [] then -1
    else if b == [] then 1
    else if a[0] < b[0] then -1
    else if a[0] > b[0] then 1
    else Strcmp(a[1..], b[1..])
  }

  /** `strcmp` reports equality exactly for equal strings. */
  lemma {:induction false} StrcmpZeroIffEqual(a: seq<byte>, b: seq<byte>)
    ensures Strcmp(a, b) == 0 <==> a == b
  {
    if a != [] && b != [] && a[0] == b[0] {
      StrcmpZeroIffEqual(a[1..], b[1..]);
      if a[1..] == b[1..] {
        assert a == [a[0]] + a[1..] && b == [b[0]] + b[1..];
      }
    }
  }

  /** Swapping the operands flips the sign. */
  lemma {:induction false} StrcmpAntisymmetric(a: seq<byte>, b: seq<byte>)
    ensures Strcmp(a, b) == -Strcmp(b, a)
  {
    if a != [] && b != [] && a[0] == b[0] {
      StrcmpAntisymmetric(a[1..], b[1..]);
    }
  }

  /** `strcmp` orders strings transitively. */
  lemma {:induction false} StrcmpTransitive(a: seq<byte>, b: seq<byte>, c: seq<byte>)
    requires Strcmp(a, b) < 0 && Strcmp(b, c) < 0
    ensures Strcmp(a, c) < 0
  {
    if a != [] && b != [] && c != [] && a[0] == b[0] && b[0] == c[0] {
      StrcmpTransitive(a[1..], b[1..], c[1..]);
    }
  }

  /** The six comparison operators as tests on the sign of a comparison. */
  datatype Relation = Eq | Ne | Lt | Le | Ge | Gt

  function Holds(rel: Relation, c: int): bool
  {
    match rel
    case Eq => c == 0
    case Ne => c != 0
    case Lt => c < 0
    case Le => c <= 0
    case Ge => c >= 0
    case Gt => c > 0
  }

  /**
   * `UTxUniqueString`: `length` bytes at `start` in `buffer`, followed by a
   * terminator; `hashCode` caches the hash, 0 meaning "not computed".
   * `chars` names the text the string was created with.
   */
  class UniqueString {
    const buffer: array<byte>
    const start: nat
    const length: nat
    var hashCode: u32
    ghost const chars: seq<byte>

    /** The bytes at `mpBuffer` are the text and a terminator. */
    ghost predicate Valid()
      reads this, buffer
    {
      start + length < buffer.Length
      && |chars| == length && NoNul(chars)
      && buffer[start..start + length] == chars && buffer[start + length] == 0
      && (hashCode == 0 || hashCode == Hash(chars))
    }

    /** `UTxUniqueString(str, len, hashcode)`: adopts a buffer whose length and hash are known. */
    constructor (buffer: array<byte>, start: nat, length: nat, hashCode: u32)
      requires start + length < buffer.Length
      ensures this.buffer == buffer && this.start == start && this.length == length
      ensures this.hashCode == hashCode && chars == buffer[start..start + length]
    {
      this.buffer := buffer;
      this.start := start;
      this.length := length;
      this.hashCode := hashCode;
      chars := buffer[start..start + length];
    }

    /** `UTxUniqueString(str)`: adopts a terminated buffer and measures it (`strlen`). */
    constructor FromBuffer(buffer: array<byte>, start: nat)
      requires start < buffer.Length && 0 in buffer[start..]
      ensures Valid()
      ensures this.buffer == buffer && this.start == start && hashCode == 0
      ensures chars == UpToNul(buffer[start..])
    {
      var n := 0;
      while buffer[start + n] != 0
        invariant start + n < buffer.Length && 0 in buffer[start + n..]
        invariant NoNul(buffer[start..start + n])
        decreases buffer.Length - n
      {
        assert buffer[start + n..][0] != 0;
        assert buffer[start + n..] == [buffer[start + n]] + buffer[start + n + 1..];
        n := n + 1;
      }
      this.buffer := buffer;
      this.start := start;
      length := n;
      hashCode := 0;
      chars := buffer[start..start + n];
      new;
      assert buffer[start..][..n] == buffer[start..start + n];
      UpToNulIsScan(buffer[start..], n);
    }

    /** `Buffer()`: the text the string holds, read from its buffer. */
    function Text(): (t: seq<byte>)
      reads this, buffer
      requires Valid()
      ensures t == chars && |t| == length
    {
      buffer[start..start + length]
    }

    /** `Length()` and `Size()`, which have the same meaning. */
    function Length(): (n: nat)
      reads this, buffer
      requires Valid()
      ensures n == |Text()|
    {
      length
    }

    /** `Empty()`. */
    predicate Empty()
      reads this, buffer
      requires Valid()
      ensures Empty() <==> Text() == []
    {
      length == 0
    }

    /** What `HashCode()` returns: the cache, or the hash of the buffer when the cache is 0. */
    function HashCodeValue(): (h: u32)
      reads this, buffer
      requires Valid()
      ensures h == Hash(Text())
    {
      if hashCode != 0 then hashCode else Hash(Text())
    }

    /** `HashCode()`: computes the hash when the cache is 0 and caches it. */
    method HashCode() returns (h: u32)
      requires Valid()
      modifies this
      ensures Valid() && h == Hash(chars) && h == old(HashCodeValue())
      ensures old(hashCode) != 0 ==> hashCode == old(hashCode)
      ensures old(hashCode) == 0 ==> hashCode == h
    {
      if hashCode == 0 {
        var len;
        hashCode, len := HashValue(Some(buffer[start..]));
        UpToNulTerminated(chars, buffer[start + length + 1..]);
        assert buffer[start..] == chars + [0] + buffer[start + length + 1..];
      }
      h := hashCode;
    }

    /** `Compare(pStr)`: case-sensitive `strcmp`, a null argument read as "". */
    function Compare(str: Option<seq<byte>>): (c: int)
      reads this, buffer
      requires Valid()
      ensures c == 0 <==> Text() == UpToNul(str.GetOr([]))
    {
      var other := UpToNul(str.GetOr([]));
      StrcmpZeroIffEqual(Text(), other);
      Strcmp(Text(), other)
    }

    /** `CompareNoCase(pStr)`: `strcmp` on lower-cased copies of both sides. */
    function CompareNoCase(str: Option<seq<byte>>): (c: int)
      reads this, buffer
      requires Valid()
      ensures c == 0 <==> Utility.ToLower(Text()) == Utility.ToLower(UpToNul(str.GetOr([])))
    {
      var other := UpToNul(str.GetOr([]));
      StrcmpZeroIffEqual(Utility.ToLower(Text()), Utility.ToLower(other));
      Strcmp(Utility.ToLower(Text()), Utility.ToLower(other))
    }

    /** `mpBuffer == str.mpBuffer`: the identity test behind `==` and `!=`. */
    predicate SameBuffer(other: UniqueString)
    {
      buffer == other.buffer && start == other.start
    }

    /**
     * An operator between two unique strings: `==`/`!=` compare buffer
     * addresses only, `<=`/`>=` hold at once for the same buffer and
     * otherwise follow `Compare`, `<`/`>` follow `Compare`.
     */
    function RelateUnique(rel: Relation, other: UniqueString): (r: bool)
      reads this, buffer, other, other.buffer
      requires Valid() && other.Valid()
      ensures rel == Eq ==> (r <==> SameBuffer(other))
      ensures rel == Ne ==> (r <==> !SameBuffer(other))
      ensures rel in {Lt, Gt} ==> (r <==> Holds(rel, Strcmp(Text(), other.Text())))
    {
      OtherTextIsArgument(other);
      match rel
      case Eq => SameBuffer(other)
      case Ne => !SameBuffer(other)
      case Le => SameBuffer(other) || Compare(Some(other.buffer[other.start..])) <= 0
      case Ge => SameBuffer(other) || Compare(Some(other.buffer[other.start..])) >= 0
      case _ => Holds(rel, Compare(Some(other.buffer[other.start..])))
    }

    /** Passing `str.mpBuffer` to `Compare` passes the other string's text. */
    lemma OtherTextIsArgument(other: UniqueString)
      requires Valid() && other.Valid()
      ensures Compare(Some(other.buffer[other.start..])) == Strcmp(Text(), other.Text())
    {
      var b := other.buffer[other.start..];
      assert b == other.chars + [0] + other.buffer[other.start + other.length + 1..];
      UpToNulTerminated(other.chars, other.buffer[other.start + other.length + 1..]);
    }

    /**
     * An operator against a `UTxString` or a `const char*` (null read as
     * ""): always the content comparison.
     */
    function RelateText(rel: Relation, str: Option<seq<byte>>): (r: bool)
      reads this, buffer
      requires Valid()
      ensures rel == Eq ==> (r <==> Text() == UpToNul(str.GetOr([])))
      ensures rel == Ne ==> (r <==> Text() != UpToNul(str.GetOr([])))
      ensures rel in {Lt, Le, Ge, Gt} ==> (r <==> Holds(rel, Strcmp(Text(), UpToNul(str.GetOr([])))))
    {
      Holds(rel, Compare(str))
    }
  }

  /**
   * The address shortcut of `<=` and `>=` never changes their answer:
   * strings sharing a buffer hold the same text.
   */
  lemma ShortcutAgreesWithCompare(a: UniqueString, b: UniqueString, rel: Relation)
    requires a.Valid() && b.Valid() && rel in {Le, Ge}
    ensures a.RelateUnique(rel, b) <==> Holds(rel, Strcmp(a.Text(), b.Text()))
  {
    a.OtherTextIsArgument(b);
    if a.SameBuffer(b) {
      assert a.Text() == b.Text() by {
        SameBufferSameText(a, b);
      }
      StrcmpZeroIffEqual(a.Text(), b.Text());
    }
  }

  /** Two strings at the same address hold the same text. */
  lemma SameBufferSameText(a: UniqueString, b: UniqueString)
    requires a.Valid() && b.Valid() && a.SameBuffer(b)
    ensures a.Text() == b.Text()
  {
    var s := a.buffer[a.start..];
    assert s == a.chars + [0] + a.buffer[a.start + a.length + 1..];
    assert s == b.chars + [0] + b.buffer[b.start + b.length + 1..];
    UpToNulTerminated(a.chars, a.buffer[a.start + a.length + 1..]);
    UpToNulTerminated(b.chars, b.buffer[b.start + b.length + 1..]);
  }

  /** Strings that differ only in letter case compare equal without case. */
  lemma CaseInsensitiveEqual(a: UniqueString, str: seq<byte>)
    requires a.Valid() && NoNul(str) && Utility.ToLower(a.Text()) == Utility.ToLower(str)
    ensures a.CompareNoCase(Some(str)) == 0
  {
    UpToNulTerminated(str, []);
    assert str + [0] + [] == str + [0];
    NoNulIsOwnText(str);
  }

  lemma NoNulIsOwnText(s: seq<byte>)
    requires NoNul(s)
    ensures UpToNul(s) == s
  {
    UpToNulIsScan(s, |s|);
  }

  /** "Aa" and "BB" share a hash, so a bucket can hold several strings. */
  lemma HashCollision()
    ensures Hash([65, 97]) == Hash([66, 66]) == 2112
  {
    assert [65, 97][..1] == [65];
    assert [66, 66][..1] == [66];
    assert [65][..0] == [] && [66][..0] == [];
  }
}
