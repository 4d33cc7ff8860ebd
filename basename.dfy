/** The basename extractor (FindDllExePos): locate a file name ending in
    ".dll" or ".exe" inside an ANSI path and return its (index, len) range. */
module Basename {
  import opened Wire

  const Dot: byte := 0x2E        // '.'
  const LowerD: byte := 0x64     // 'd'
  const LowerL: byte := 0x6C     // 'l'
  const LowerE: byte := 0x65     // 'e'
  const LowerX: byte := 0x78     // 'x'
  const Backslash: byte := 0x5C  // '\\'
  const Nul: byte := 0

  /** The range [index, index + len) of the converted string. */
  datatype Range = Range(index: nat, len: nat)

  /** ".dll" or ".exe" starts at i, all four bytes inside the string. */
  predicate SuffixAt(s: seq<byte>, i: nat)
  {
    && i + 4 <= |s|
    && s[i] == Dot
    && ((s[i + 1] == LowerD && s[i + 2] == LowerL && s[i + 3] == LowerL)
        || (s[i + 1] == LowerE && s[i + 2] == LowerX && s[i + 3] == LowerE))
  }

  /** Walking back from position i: the position just after the nearest '\\'
      in s[..i], if there is one. */
  function SeparatorBefore(s: seq<byte>, i: nat): (k: Option<nat>)
    requires i <= |s|
    ensures k.Some? ==> 1 <= k.value <= i && s[k.value - 1] == Backslash
    ensures k.Some? ==> forall j :: k.value <= j < i ==> s[j] != Backslash
    ensures k.None? ==> forall j :: 0 <= j < i ==> s[j] != Backslash
  {
    if i == 0 then None
    else if s[i - 1] == Backslash then Some(i)
    else SeparatorBefore(s, i - 1)
  }

  /** A suffix at i that is preceded by a '\\' somewhere: the ones the scan accepts. */
  predicate Accepted(s: seq<byte>, i: nat)
  {
    i <= |s| && SuffixAt(s, i) && SeparatorBefore(s, i).Some?
  }

  /** The scan from position i onwards: the first accepted suffix, and the
      range from just after its separator through the end of the suffix. */
  function ScanFrom(s: seq<byte>, i: nat): (r: Option<Range>)
    decreases |s| - i
  {
    if i >= |s| then None
    else if Accepted(s, i) then
      var k := SeparatorBefore(s, i).value;
      Some(Range(k, i + 4 - k))
    else ScanFrom(s, i + 1)
  }

  /** What FindDllExePos computes for a non-null converted string. */
  function Extract(s: seq<byte>): Option<Range>
  {
    ScanFrom(s, 0)
  }

  /** The bytes an extraction selects. */
  function Span(s: seq<byte>, r: Range): seq<byte>
    requires r.index + r.len <= |s|
  {
    s[r.index..r.index + r.len]
  }

  /** FindDllExePos over the ANSI string; `str` is None when its Buffer is null.
      The scan reads through the NUL the converter stores at index Length and
      never past it, so a suffix is matched only with all four bytes inside. */
  method FindDllExePos(str: Option<seq<byte>>) returns (found: bool, index: nat, len: nat)
    requires str.Some? ==> |str.value| < 0x1_0000
    ensures found <==> str.Some? && Extract(str.value).Some?
    ensures found ==> Extract(str.value) == Some(Range(index, len))
  {
    found, index, len := false, 0, 0;
    if str.None? {
      return;
    }
    var s := str.value;
    var buf := s + [Nul];
    assert buf[|s|] == Nul;
    var i := 0;
    while i < |s|
      invariant 0 <= i <= |s|
      invariant Extract(s) == ScanFrom(s, i)
    {
      if (buf[i] == Dot && buf[i + 1] == LowerD && buf[i + 2] == LowerL && buf[i + 3] == LowerL)
        || (buf[i] == Dot && buf[i + 1] == LowerE && buf[i + 2] == LowerX && buf[i + 3] == LowerE)
      {
        assert SuffixAt(s, i);
        index := i;
        len := 3;
        while index > 0
          invariant 0 <= index <= i
          invariant len == i + 3 - index
          invariant SeparatorBefore(s, i) == SeparatorBefore(s, index)
        {
          len := len + 1;
          if buf[index - 1] == Backslash {
            found := true;
            return;
          }
          index := index - 1;
        }
      }
      i := i + 1;
    }
  }

  /** The range returned has a fixed shape: it ends exactly at the end of an
      accepted suffix, starts just after a '\\', and holds no '\\'. */
  lemma {:induction false} ScanShape(s: seq<byte>, i: nat)
    requires ScanFrom(s, i).Some?
    ensures var r := ScanFrom(s, i).value;
      && 1 <= r.index && r.len >= 4 && r.index + r.len <= |s|
      && Accepted(s, r.index + r.len - 4)
      && s[r.index - 1] == Backslash
      && (forall j :: r.index <= j < r.index + r.len ==> s[j] != Backslash)
    decreases |s| - i
  {
    if !Accepted(s, i) {
      ScanShape(s, i + 1);
    }
  }

  lemma ExtractShape(s: seq<byte>)
    requires Extract(s).Some?
    ensures var r := Extract(s).value;
      && 1 <= r.index && r.len >= 4 && r.index + r.len <= |s|
      && SuffixAt(s, r.index + r.len - 4)
      && s[r.index - 1] == Backslash
      && (forall j :: r.index <= j < r.index + r.len ==> s[j] != Backslash)
  {
    ScanShape(s, 0);
  }

  /** First match wins: the scan succeeds exactly when some suffix at or after
      i has a '\\' before it, and then it picks the leftmost such suffix; a
      suffix with no '\\' before it is skipped. */
  lemma {:induction false} ScanFirst(s: seq<byte>, i: nat)
    ensures ScanFrom(s, i).Some? <==> exists j :: i <= j && Accepted(s, j)
    ensures ScanFrom(s, i).Some? ==>
      var r := ScanFrom(s, i).value;
      && i <= r.index + r.len - 4
      && (forall j :: i <= j < r.index + r.len - 4 ==> !Accepted(s, j))
    decreases |s| - i
  {
    if i >= |s| {
      forall j | i <= j ensures !Accepted(s, j) { }
    } else if !Accepted(s, i) {
      ScanFirst(s, i + 1);
      if ScanFrom(s, i).None? {
        forall j | i <= j ensures !Accepted(s, j) {
          if j > i { }
        }
      }
    }
  }

  lemma ExtractFirst(s: seq<byte>)
    ensures Extract(s).Some? <==> exists j :: Accepted(s, j)
    ensures Extract(s).Some? ==>
      var r := Extract(s).value;
      forall j :: 0 <= j < r.index + r.len - 4 ==> !Accepted(s, j)
  {
    ScanFirst(s, 0);
  }

  /** The basename of a path as the caller sees it: the bytes of the extracted range. */
  function BasenameOf(s: seq<byte>): (b: Option<seq<byte>>)
    ensures b.Some? <==> Extract(s).Some?
  {
    var r := Extract(s);
    if r.None? then None
    else
      ExtractShape(s);
      Some(Span(s, r.value))
  }

  // "C:\a.dll.exe": the first suffix, ".dll" at 4, wins over the final component.
  const PathWithTwoSuffixes: seq<byte> := [0x43, 0x3A, 0x5C, 0x61, 0x2E, 0x64, 0x6C, 0x6C, 0x2E, 0x65, 0x78, 0x65]

  lemma TwoSuffixesYieldFirst()
    ensures Extract(PathWithTwoSuffixes) == Some(Range(3, 5))
    ensures BasenameOf(PathWithTwoSuffixes) == Some([0x61, 0x2E, 0x64, 0x6C, 0x6C])  // "a.dll"
  {
    var s := PathWithTwoSuffixes;
    assert !Accepted(s, 0) && !Accepted(s, 1) && !Accepted(s, 2) && !Accepted(s, 3);
    assert SuffixAt(s, 4);
    assert SeparatorBefore(s, 4) == Some(3);
    assert ScanFrom(s, 0) == ScanFrom(s, 4);
    assert Span(s, Range(3, 5)) == s[3..8] == [0x61, 0x2E, 0x64, 0x6C, 0x6C];
  }

  // "a.dll": a suffix with no '\\' before it is not taken, and there is no
  // fallback to the start of the string.
  const BareName: seq<byte> := [0x61, 0x2E, 0x64, 0x6C, 0x6C]

  lemma BareNameIsRejected()
    ensures Extract(BareName).None?
  {
    var s := BareName;
    assert SeparatorBefore(s, 1) == None;
    ExtractFirst(s);
    assert forall j :: !Accepted(s, j) by {
      forall j ensures !Accepted(s, j) {
        if j != 1 { assert !SuffixAt(s, j); }
      }
    }
  }
}
