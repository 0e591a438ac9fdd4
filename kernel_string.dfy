/** The Limine kernel's string functions (kernel/src/lib/string.cpp). A C
    string is a character array holding a NUL; its contents are the
    characters before the first NUL. `strcpy` copies those characters but
    no terminator, `strcat` appends only the first character of the source,
    and `strncat` appends nothing and returns a pointer `count` characters
    before the destination's terminator. */
module KernelString {

  /** The index of the first NUL: what `strlen` counts. */
  function Len(s: seq<char>): (n: nat)
    requires '\0' in s
    ensures n < |s| && s[n] == '\0'
    ensures forall k :: 0 <= k < n ==> s[k] != '\0'
  {
    if s[0] == '\0' then 0 else 1 + Len(s[1..])
  }

  /** The characters of a C string. */
  function CString(s: seq<char>): (r: seq<char>)
    requires '\0' in s
    ensures |r| < |s| && r == s[..|r|] && s[|r|] == '\0' && '\0' !in r
  {
    s[..Len(s)]
  }

  /** A NUL with no NUL before it is the terminator. */
  lemma LenAt(s: seq<char>, n: nat)
    requires n < |s| && s[n] == '\0' && forall k :: 0 <= k < n ==> s[k] != '\0'
    ensures Len(s) == n
  {
  }

  /** `strlen(str)`: count characters up to the first NUL. */
  method Strlen(str: array<char>) returns (len: nat)
    requires '\0' in str[..]
    ensures len == Len(str[..])
  {
    ghost var n := Len(str[..]);
    len := 0;
    while str[len] != '\0'
      invariant len <= n
      invariant forall k :: 0 <= k < len ==> str[k] != '\0'
      decreases n - len
    {
      len := len + 1;
    }
  }

  /** The array after `strcpy(d, s)`: the characters of `s` over the front
      of `d`, and everything from there on as it was, terminator or not. */
  function StrcpyResult(d: seq<char>, s: seq<char>): (r: seq<char>)
    requires '\0' in s && Len(s) <= |d|
    ensures |r| == |d|
  {
    CString(s) + d[Len(s)..]
  }

  /** `strcpy` leaves a copy of the source string exactly when the
      destination already held a NUL just past where the copy ends: the
      characters are copied, the terminator is not. */
  lemma StrcpyTerminator(d: seq<char>, s: seq<char>)
    requires '\0' in s && Len(s) < |d|
    ensures StrcpyResult(d, s)[..Len(s)] == CString(s)
    ensures StrcpyResult(d, s)[Len(s)] == d[Len(s)]
    ensures ('\0' in StrcpyResult(d, s) && CString(StrcpyResult(d, s)) == CString(s)) <==> d[Len(s)] == '\0'
  {
    var r := StrcpyResult(d, s);
    var n := Len(s);
    assert r[n] == d[n];
    if d[n] == '\0' {
      assert forall k :: 0 <= k < n ==> r[k] == s[k];
      LenAt(r, n);
    }
  }

  /** `strcpy(destination, source)`. The two may be the same array, in which
      case every character is copied onto itself. */
  method Strcpy(destination: array<char>, source: array<char>) returns (r: array<char>)
    requires '\0' in source[..] && Len(source[..]) <= destination.Length
    modifies destination
    ensures r == destination
    ensures destination[..] == StrcpyResult(old(destination[..]), old(source[..]))
  {
    ghost var n := Len(source[..]);
    var i := 0;
    while source[i] != '\0'
      invariant i <= n
      invariant source[..] == old(source[..])
      invariant forall k :: 0 <= k < i ==> destination[k] == source[k]
      invariant forall k :: i <= k < destination.Length ==> destination[k] == old(destination[k])
      decreases n - i
    {
      destination[i] := source[i];
      i := i + 1;
    }
    r := destination;
  }

  /** The array after `strcat(d, s)`: the first character of `s` over the
      terminator of `d`. */
  function StrcatResult(d: seq<char>, s: seq<char>): (r: seq<char>)
    requires '\0' in d && 0 < |s|
    ensures |r| == |d|
  {
    d[Len(d) := s[0]]
  }

  /** Appending an empty string changes nothing; appending a longer one
      appends its first character only, so (when the character after the
      destination's terminator is a NUL) the result is the C concatenation
      exactly when the source has at most one character. */
  lemma StrcatSpec(d: seq<char>, s: seq<char>)
    requires '\0' in d && '\0' in s
    ensures s[0] == '\0' ==> StrcatResult(d, s) == d
    ensures Len(d) + 1 < |d| && d[Len(d) + 1] == '\0' ==>
      && '\0' in StrcatResult(d, s)
      && (CString(StrcatResult(d, s)) == CString(d) + CString(s)[..if Len(s) == 0 then 0 else 1])
      && (CString(StrcatResult(d, s)) == CString(d) + CString(s) <==> Len(s) <= 1)
  {
    var n := Len(d);
    if n + 1 < |d| && d[n + 1] == '\0' {
      var r := StrcatResult(d, s);
      if s[0] == '\0' {
        LenAt(r, n);
        assert CString(r) == CString(d);
      } else {
        assert Len(s) >= 1;
        LenAt(r, n + 1);
        assert CString(r) == CString(d) + [s[0]];
        assert CString(s)[..1] == [s[0]];
        if Len(s) > 1 {
          assert |CString(d) + CString(s)| > n + 1;
        } else {
          assert CString(s) == [s[0]];
        }
      }
    }
  }

  /** `strcat(destination, source)`; the two may be the same array. */
  method Strcat(destination: array<char>, source: array<char>) returns (r: array<char>)
    requires '\0' in destination[..] && '\0' in source[..]
    modifies destination
    ensures r == destination
    ensures destination[..] == StrcatResult(old(destination[..]), old(source[..]))
  {
    var len := Strlen(destination);
    assert Len(source[..]) < source.Length;
    destination[len] := source[0];
    r := destination;
  }

  /** `strncat(destination, source, count)` as an offset into the
      destination: nothing is written, and the pointer returned lies `count`
      characters before the destination's terminator (before the array
      itself when `count` exceeds the string's length). */
  function Strncat(d: seq<char>, count: nat): (offset: int)
    requires '\0' in d
    ensures 0 <= offset + count < |d| && d[offset + count] == '\0'
    ensures forall k :: 0 <= k < offset + count ==> d[k] != '\0'
    ensures offset < 0 <==> count > Len(d)
  {
    Len(d) - count
  }
}
