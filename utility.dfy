/** String helpers of the runtime: file-name extraction, lower-casing and narrow/wide conversion. */
module Utility {
  import opened Base

  const Slash: byte := 47

  /** The C-locale `tolower` on one character: only 'A'..'Z' change. */
  function LowerByte(c: byte): (r: byte)
    ensures 65 <= c <= 90 ==> r == c + 32
    ensures !(65 <= c <= 90) ==> r == c
  {
    if 65 <= c <= 90 then c + 32 else c
  }

  /**
   * The copying overloads `ToLower(const UTxString&)` and `ToLower(const char*)`:
   * `std::transform(..., ::tolower)` applied to a whole string.
   */
  function ToLower(s: seq<byte>): (r: seq<byte>)
    ensures |r| == |s|
    ensures forall i :: 0 <= i < |s| ==> r[i] == LowerByte(s[i])
    ensures forall i :: 0 <= i < |s| && !(65 <= s[i] <= 90) ==> r[i] == s[i]
    ensures forall i :: 0 <= i < |r| ==> !(65 <= r[i] <= 90)
  {
    seq(|s|, i requires 0 <= i < |s| => LowerByte(s[i]))
  }

  /** Lower-casing twice is lower-casing once. */
  lemma ToLowerIdempotent(s: seq<byte>)
    ensures ToLower(ToLower(s)) == ToLower(s)
  {
  }

  /** `ToLower(UTxString&)`: transforms the string in place (the returned reference is the argument). */
  method ToLowerInPlace(str: array<byte>)
    modifies str
    ensures str[..] == ToLower(old(str[..]))
  {
    var i := 0;
    while i < str.Length
      invariant 0 <= i <= str.Length
      invariant forall k :: 0 <= k < i ==> str[k] == LowerByte(old(str[k]))
      invariant forall k :: i <= k < str.Length ==> str[k] == old(str[k])
    {
      str[i] := LowerByte(str[i]);
      i := i + 1;
    }
  }

  /** `find_last_of("/")`: the index of the last slash, or None (npos). */
  function FindLastSlash(s: seq<byte>): (r: Option<nat>)
    ensures r.None? <==> Slash !in s
    ensures r.Some? ==> r.value < |s| && s[r.value] == Slash
    ensures r.Some? ==> forall j :: r.value < j < |s| ==> s[j] != Slash
  {
    if |s| == 0 then None
    else if s[|s| - 1] == Slash then Some(|s| - 1)
    else FindLastSlash(s[..|s| - 1])
  }

  /**
   * `FileName`: the part of a path after its last '/': a suffix of the
   * path with no '/' in it, preceded by a '/' whenever the path has one.
   */
  function FileName(path: seq<byte>): (r: seq<byte>)
    ensures |r| <= |path| && r == path[|path| - |r|..]
    ensures Slash !in r
    ensures Slash in path ==> path[|path| - |r| - 1] == Slash
  {
    match FindLastSlash(path)
    case None => path
    case Some(p) => path[p + 1..]
  }

  /** A path with no '/' is its own file name. */
  lemma FileNameNoSlash(path: seq<byte>)
    requires Slash !in path
    ensures FileName(path) == path
  {
  }

  /** A wide character (`wchar_t`, 32-bit signed on the target platform). */
  type wchar = x: int | -0x8000_0000 <= x < 0x8000_0000

  /** Widening a `char` sign-extends it: bytes 128..255 become negative wide characters. */
  function Widen(c: byte): wchar {
    if c < 128 then c else c - 256
  }

  /** Narrowing a `wchar_t` to `char` keeps its low eight bits. */
  function Narrow(w: wchar): byte {
    w % 256
  }

  /** `StringConvert(const UTxString&)`: element-wise widening. */
  function WidenString(s: seq<byte>): (r: seq<wchar>)
    ensures |r| == |s|
    ensures forall i :: 0 <= i < |s| ==> r[i] == Widen(s[i])
  {
    seq(|s|, i requires 0 <= i < |s| => Widen(s[i]))
  }

  /** `StringConvert(const IString&)`: element-wise narrowing. */
  function NarrowString(w: seq<wchar>): (r: seq<byte>)
    ensures |r| == |w|
    ensures forall i :: 0 <= i < |w| ==> r[i] == Narrow(w[i])
  {
    seq(|w|, i requires 0 <= i < |w| => Narrow(w[i]))
  }

  /** Converting to wide and back gives the original narrow string. */
  lemma NarrowWidenRoundTrip(s: seq<byte>)
    ensures NarrowString(WidenString(s)) == s
  {
  }
}
