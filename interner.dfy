/**
 * The string interner (`UTxUniqueStringManager`): a table from hash codes
 * to buckets of unique strings, whose characters are copied into 1 KB
 * character buffers, so that equal text always yields the same object.
 */
module Interner {
  import opened Base
  import opened UniqueStrings

  /** `DEFAULT_STRING_BUFFER_COUNT`: the size of each character buffer. */
  const BufferSize: nat := 1024

  /** A buffer range `[lo, hi)` below `n` is the same in two arrays that agree below `n`. */
  lemma SamePrefixSameSlice(a: seq<byte>, b: seq<byte>, lo: nat, hi: nat, n: nat)
    requires lo <= hi <= n <= |a| && n <= |b| && a[..n] == b[..n]
    ensures a[lo..hi] == b[lo..hi]
  {
    assert a[lo..hi] == a[..n][lo..hi];
    assert b[lo..hi] == b[..n][lo..hi];
  }

  /** No two entries hold the same text. */
  ghost predicate DistinctTexts(entries: seq<UniqueString>)
  {
    forall x, y :: x in entries && y in entries && x != y ==> x.chars != y.chars
  }

  /**
   * The table indexes exactly the entries: each entry sits in the bucket
   * of its text's hash, and buckets are non-empty and hold only entries
   * of their hash.
   */
  ghost predicate Indexed(table: map<u32, seq<UniqueString>>, entries: seq<UniqueString>)
  {
    (forall e :: e in entries ==> Hash(e.chars) in table && e in table[Hash(e.chars)])
    && (forall h :: h in table ==> table[h] != [])
    && (forall h, e :: h in table && e in table[h] ==> e in entries && Hash(e.chars) == h)
  }

  /** Appending a string with new text to its bucket keeps the table an index of the entries. */
  lemma AddToBucket(table: map<u32, seq<UniqueString>>, entries: seq<UniqueString>, r: UniqueString)
    requires Indexed(table, entries) && DistinctTexts(entries)
    requires forall e :: e in entries ==> e.chars != r.chars
    ensures Indexed(table[Hash(r.chars) := (if Hash(r.chars) in table then table[Hash(r.chars)] else []) + [r]], entries + [r])
    ensures DistinctTexts(entries + [r])
  {
  }

  /** A text missing from the bucket of its hash is held by no entry. */
  lemma Absent(table: map<u32, seq<UniqueString>>, entries: seq<UniqueString>, text: seq<byte>)
    requires Indexed(table, entries)
    requires Hash(text) in table ==> forall k :: 0 <= k < |table[Hash(text)]| ==> table[Hash(text)][k].chars != text
    ensures forall e :: e in entries ==> e.chars != text
  {
  }

  /**
   * `buffers` is `mBuffers` and `stringBuf` the last of them, filled up
   * to `bufNext`; `table` is `mStringTable`; `count` is `mCount`.
   * `Entries` lists the unique strings in the order they were added and
   * `Repr` holds the buffers and the entries.
   */
  class UniqueStringManager {
    var buffers: seq<array<byte>>
    var stringBuf: array<byte>
    var bufLength: nat
    var bufNext: nat
    var count: int
    var table: map<u32, seq<UniqueString>>
    ghost var Entries: seq<UniqueString>
    ghost var Repr: set<object>

    ghost predicate Valid()
      reads this, Repr
    {
      bufLength == BufferSize && bufNext <= bufLength
      && buffers != [] && stringBuf == buffers[|buffers| - 1]
      && (forall b :: b in buffers ==> b in Repr && b.Length == BufferSize)
      && (forall e :: e in Entries ==> e in Repr && e.buffer in buffers)
      && (forall e :: e in Entries ==> e.Valid() && e.hashCode == Hash(e.chars))
      && (forall e :: e in Entries && e.buffer == stringBuf ==> e.start + e.length < bufNext)
      && DistinctTexts(Entries) && Indexed(table, Entries)
      && count == |Entries|
    }

    /** Some unique string holds `text`. */
    ghost predicate Interned(text: seq<byte>)
      reads this
    {
      exists e :: e in Entries && e.chars == text
    }

    /** The constructor: no strings, one fresh buffer. */
    constructor ()
      ensures Valid() && fresh(stringBuf)
      ensures Entries == [] && table == map[] && count == 0
      ensures buffers == [stringBuf] && bufNext == 0
    {
      bufLength := BufferSize;
      bufNext := 0;
      count := 0;
      table := map[];
      Entries := [];
      var buff := new byte[BufferSize];
      buffers := [buff];
      stringBuf := buff;
      Repr := {buff};
    }

    /** `Alloc()`: appends a fresh buffer and starts filling it. */
    method Alloc()
      requires Valid()
      modifies this
      ensures Valid() && fresh(stringBuf) && stringBuf.Length == BufferSize
      ensures buffers == old(buffers) + [stringBuf] && Repr == old(Repr) + {stringBuf}
      ensures bufLength == BufferSize && bufNext == 0
      ensures table == old(table) && count == old(count) && Entries == old(Entries)
    {
      var buff := new byte[BufferSize];
      buffers := buffers + [buff];
      stringBuf := buff;
      bufLength := BufferSize;
      bufNext := 0;
      Repr := Repr + {buff};
    }

    /**
     * The bucket scan shared by `Find` and `Intern`: the entry of bucket
     * `hash` whose hash code, length and text equal those of `text`.
     */
    method Search(text: seq<byte>, hash: u32, len: nat) returns (r: UniqueString?)
      requires Valid() && NoNul(text) && hash == Hash(text) && len == |text|
      ensures r != null ==> r in Entries && r.chars == text
      ensures r == null <==> !Interned(text)
    {
      NoNulIsOwnText(text);
      if hash !in table {
        Absent(table, Entries, text);
        return null;
      }
      var bucket := table[hash];
      var i := 0;
      while i < |bucket|
        invariant i <= |bucket|
        invariant forall k :: 0 <= k < i ==> bucket[k].chars != text
      {
        var e := bucket[i];
        assert e in Entries;
        if e.HashCodeValue() == hash && e.Length() == len && e.Compare(Some(text)) == 0 {
          return e;
        }
        i := i + 1;
      }
      Absent(table, Entries, text);
      return null;
    }

    /** `Find(pString)`: the lookup without any change; a null string finds nothing. */
    method Find(str: Option<seq<byte>>) returns (r: UniqueString?)
      requires Valid()
      ensures str.None? ==> r == null
      ensures str.Some? ==> (r != null <==> Interned(UpToNul(str.value)))
      ensures r != null ==> r in Entries && r.chars == UpToNul(str.value)
    {
      if str.None? {
        return null;
      }
      var hash, len := HashValue(str);
      r := Search(UpToNul(str.value), hash, len);
    }

    /**
     * `Find(pString)` as written: a null string is hashed as the empty
     * string, and reaching the text comparison with it (`strcmp` on a null
     * pointer) is reported as `fault`.
     */
    method FindAsWritten(str: Option<seq<byte>>) returns (r: UniqueString?, fault: bool)
      requires Valid()
      ensures str.Some? ==> !fault && (r != null <==> Interned(UpToNul(str.value)))
      ensures str.None? ==> r == null && (fault <==> Interned([]))
    {
      var hash, len := HashValue(str);
      if str.Some? {
        r := Search(UpToNul(str.value), hash, len);
        return r, false;
      }
      r, fault := null, false;
      if hash in table {
        var bucket := table[hash];
        var i := 0;
        while i < |bucket|
          invariant i <= |bucket|
          invariant forall k :: 0 <= k < i ==> bucket[k].chars != []
        {
          var e := bucket[i];
          if e.HashCodeValue() == hash && e.Length() == len {
            return null, true;
          }
          i := i + 1;
        }
      }
    }

    /**
     * `AddString`: copies the text and its terminator into the current
     * buffer, starting a fresh buffer when they would reach its end, and
     * appends a new unique string to the bucket of its hash.
     */
    method AddString(text: seq<byte>, len: nat, hash: u32) returns (r: UniqueString)
      requires Valid() && NoNul(text) && len == |text| && hash == Hash(text)
      requires len < BufferSize && !Interned(text)
      modifies this, stringBuf
      ensures Valid() && fresh(r) && r.chars == text
      ensures Entries == old(Entries) + [r] && count == old(count) + 1
      ensures table == old(table)[hash := (if hash in old(table) then old(table)[hash] else []) + [r]]
      ensures old(bufNext) + len + 1 >= BufferSize ==>
        fresh(stringBuf) && buffers == old(buffers) + [stringBuf] && r.start == 0 && bufNext == len + 1
      ensures old(bufNext) + len + 1 < BufferSize ==>
        stringBuf == old(stringBuf) && buffers == old(buffers) && r.start == old(bufNext)
        && bufNext == old(bufNext) + len + 1
      ensures r.buffer == stringBuf && (stringBuf == old(stringBuf) || fresh(stringBuf))
    {
      if bufNext + len + 1 >= bufLength {
        Alloc();
      }
      var start := CopyText(text);
      r := new UniqueString(stringBuf, start, len, hash);
      Register(r);
    }

    /** The copy loop of `AddString`: the text and its terminator go to `bufNext` onwards. */
    method CopyText(text: seq<byte>) returns (start: nat)
      requires Valid() && bufNext + |text| + 1 <= bufLength
      modifies this, stringBuf
      ensures Valid() && start == old(bufNext) && bufNext == start + |text| + 1
      ensures start + |text| < stringBuf.Length
      ensures stringBuf[start..start + |text|] == text && stringBuf[start + |text|] == 0
      ensures buffers == old(buffers) && stringBuf == old(stringBuf) && Repr == old(Repr)
      ensures table == old(table) && count == old(count) && Entries == old(Entries)
    {
      start := bufNext;
      ghost var before := stringBuf[..];
      var src := text + [0];
      var i := 0;
      while i < |src|
        invariant 0 <= i <= |src| && bufNext == start + i
        invariant stringBuf[start..start + i] == src[..i]
        invariant stringBuf[..start] == before[..start]
        modifies stringBuf, this`bufNext
      {
        stringBuf[bufNext] := src[i];
        assert stringBuf[start..start + i + 1] == stringBuf[start..start + i] + [src[i]];
        assert src[..i + 1] == src[..i] + [src[i]];
        bufNext := bufNext + 1;
        i := i + 1;
      }
      assert src[..|src|] == text + [0];
      assert stringBuf[start..start + |text|] == stringBuf[start..start + |text| + 1][..|text|];
      StillValid(Entries, before, start);
    }

    /** The bookkeeping of `AddString`: the new string joins its bucket and `mCount` grows. */
    method Register(r: UniqueString)
      requires Valid() && r.Valid() && r.buffer == stringBuf && r.start + r.length < bufNext
      requires r.hashCode == Hash(r.chars) && r !in Repr && !Interned(r.chars)
      modifies this
      ensures Valid() && Entries == old(Entries) + [r] && count == old(count) + 1
      ensures table == old(table)[r.hashCode := (if r.hashCode in old(table) then old(table)[r.hashCode] else []) + [r]]
      ensures buffers == old(buffers) && stringBuf == old(stringBuf) && bufNext == old(bufNext)
    {
      AddToBucket(table, Entries, r);
      table := table[r.hashCode := (if r.hashCode in table then table[r.hashCode] else []) + [r]];
      count := count + 1;
      Entries := Entries + [r];
      Repr := Repr + {r};
    }

    /** Entries written before `start` keep their text while the buffer fills beyond it. */
    lemma StillValid(entries: seq<UniqueString>, before: seq<byte>, start: nat)
      requires |before| == stringBuf.Length && start <= stringBuf.Length
      requires stringBuf[..start] == before[..start]
      requires forall e :: e in entries && e.buffer == stringBuf ==>
        e.start + e.length < start && before[e.start..e.start + e.length] == e.chars && before[e.start + e.length] == 0
      ensures forall e :: e in entries && e.buffer == stringBuf ==>
        stringBuf[e.start..e.start + e.length] == e.chars && stringBuf[e.start + e.length] == 0
    {
      forall e | e in entries && e.buffer == stringBuf
        ensures stringBuf[e.start..e.start + e.length] == e.chars && stringBuf[e.start + e.length] == 0
      {
        SamePrefixSameSlice(stringBuf[..], before, e.start, e.start + e.length, start);
        assert stringBuf[e.start + e.length] == stringBuf[..start][e.start + e.length];
      }
    }

    /**
     * `Intern(pString)`: the unique string holding the text, added on a
     * miss; a null string gives null and changes nothing.
     */
    method Intern(str: Option<seq<byte>>) returns (r: UniqueString?)
      requires Valid()
      requires str.Some? ==> |UpToNul(str.value)| < BufferSize
      modifies this, stringBuf
      ensures Valid()
      ensures str.None? ==> r == null
      ensures str.Some? ==> r != null && r in Entries && r.chars == UpToNul(str.value)
      ensures str.None? || old(Interned(UpToNul(str.value))) ==>
        Entries == old(Entries) && table == old(table) && count == old(count)
        && buffers == old(buffers) && stringBuf == old(stringBuf) && bufNext == old(bufNext)
        && stringBuf[..] == old(stringBuf[..])
      ensures str.Some? && !old(Interned(UpToNul(str.value))) ==>
        fresh(r) && Entries == old(Entries) + [r] && count == old(count) + 1
        && table.Keys == old(table.Keys) + {Hash(UpToNul(str.value))}
      ensures stringBuf == old(stringBuf) || fresh(stringBuf)
    {
      if str.None? {
        return null;
      }
      var hash, len := HashValue(str);
      var text := UpToNul(str.value);
      r := Search(text, hash, len);
      if r == null {
        r := AddString(text, len, hash);
      }
    }

    /** `Count()` as written: the number of hash buckets. */
    function Count(): (n: nat)
      reads this
      ensures n == |table.Keys|
    {
      |table|
    }

    /** The number of unique strings, which `mCount` keeps. */
    function StringCount(): (n: int)
      reads this, Repr
      requires Valid()
      ensures n == |Entries|
    {
      count
    }
  }

  /** Interned strings are canonical: equal text means the same object. */
  lemma Canonical(m: UniqueStringManager, a: UniqueString, b: UniqueString)
    requires m.Valid() && a in m.Entries && b in m.Entries
    ensures a.chars == b.chars <==> a == b
  {
  }

  /** For interned strings the address test `==` is a content test. */
  lemma EqualityIsContent(m: UniqueStringManager, a: UniqueString, b: UniqueString)
    requires m.Valid() && a in m.Entries && b in m.Entries
    ensures a.RelateUnique(Eq, b) <==> a.Text() == b.Text()
  {
    Canonical(m, a, b);
    if a.SameBuffer(b) {
      SameBufferSameText(a, b);
    }
  }

  /** Interning the same text twice gives the same object and the second call changes nothing. */
  method InternTwice(m: UniqueStringManager, text: seq<byte>) returns (first: UniqueString?, second: UniqueString?)
    requires m.Valid() && |UpToNul(text)| < BufferSize
    modifies m, m.stringBuf
    ensures m.Valid() && first != null && first == second
  {
    first := m.Intern(Some(text));
    second := m.Intern(Some(text));
    Canonical(m, first, second);
  }

  /**
   * Interning "Aa" and "BB", which share a hash, makes two unique strings
   * in one bucket.
   */
  method CollidingStrings() returns (buckets: nat, strings: int)
    ensures buckets == 1 && strings == 2
  {
    var m := new UniqueStringManager();
    HashCollision();
    NoNulIsOwnText([65, 97]);
    NoNulIsOwnText([66, 66]);
    var a := m.Intern(Some([65, 97]));
    var b := m.Intern(Some([66, 66]));
    assert m.table.Keys == {2112};
    buckets := m.Count();
    strings := m.StringCount();
  }

  /** After "" is interned, `Find` as written reaches `strcmp` with a null string. */
  method NullFindAfterEmptyString() returns (fault: bool, found: UniqueString?)
    ensures fault && found == null
  {
    var m := new UniqueStringManager();
    var e := m.Intern(Some([]));
    found, fault := m.FindAsWritten(None);
    var corrected := m.Find(None);
    assert corrected == null;
  }
}
