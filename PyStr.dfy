/**
  The parts of Python's `str` that the Markdown core relies on: `startswith`,
  `count`, `split` with a separator, `strip()` with no argument, `"sep".join`,
  and the `filter(lambda x: x != "", ...)` idiom. Strings are `seq<char>`.
*/
module PyStr {
  import opened Wrappers

  /** Python's `str.isspace` for one character: the characters `strip()` removes. */
  predicate IsSpace(c: char) {
    ('\t' <= c <= '\r') || ('\U{1C}' <= c <= '\U{1F}') || c == ' '
    || c == '\U{85}' || c == '\U{A0}' || c == '\U{1680}'
    || ('\U{2000}' <= c <= '\U{200A}') || c == '\U{2028}' || c == '\U{2029}'
    || c == '\U{202F}' || c == '\U{205F}' || c == '\U{3000}'
  }

  predicate AllSpace(s: string) {
    forall i :: 0 <= i < |s| ==> IsSpace(s[i])
  }

  /** Neither end of `s` is whitespace (what `strip()` guarantees of its result). */
  predicate Stripped(s: string) {
    s == [] || (!IsSpace(s[0]) && !IsSpace(s[|s| - 1]))
  }

  /** `s.startswith(prefix)`. */
  predicate StartsWith(s: string, prefix: string) {
    |prefix| <= |s| && s[..|prefix|] == prefix
  }

  /** `sep` occurs in `s` starting at index `i`. */
  predicate IsAt(s: string, sep: string, i: int) {
    0 <= i && i + |sep| <= |s| && s[i..i + |sep|] == sep
  }

  /** `sep not in s`. */
  predicate Free(s: string, sep: string) {
    forall i :: 0 <= i <= |s| ==> !IsAt(s, sep, i)
  }

  /** `s.find(sep, k)`: the first occurrence of `sep` at or after `k`. */
  function FindFrom(s: string, sep: string, k: nat): (r: Option<nat>)
    decreases |s| - k
    ensures r.Some? ==> k <= r.value && IsAt(s, sep, r.value)
    ensures r.Some? ==> forall j :: k <= j < r.value ==> !IsAt(s, sep, j)
    ensures r.None? ==> forall j :: k <= j ==> !IsAt(s, sep, j)
  {
    if k + |sep| > |s| then None
    else if s[k..k + |sep|] == sep then Some(k)
    else FindFrom(s, sep, k + 1)
  }

  /**
    `s.split(sep)` for a non-empty separator: cut at the leftmost occurrence,
    then go on after it, so occurrences never overlap.
  */
  function Split(s: string, sep: string): (parts: seq<string>)
    requires sep != []
    decreases |s|
  {
    match FindFrom(s, sep, 0)
    case None => [s]
    case Some(i) => [s[..i]] + Split(s[i + |sep|..], sep)
  }

  /** `s.count(sep)` for a non-empty separator: non-overlapping occurrences, left to right. */
  function Count(s: string, sep: string): nat
    requires sep != []
    decreases |s|
  {
    match FindFrom(s, sep, 0)
    case None => 0
    case Some(i) => 1 + Count(s[i + |sep|..], sep)
  }

  /** `s.count(sep)` for any `sep`: Python finds `len(s) + 1` empty matches of `""`. */
  function PyCount(s: string, sep: string): nat {
    if sep == [] then |s| + 1 else Count(s, sep)
  }

  /** `sep.join(parts)`. */
  function Join(parts: seq<string>, sep: string): string
    decreases |parts|
  {
    if |parts| == 0 then []
    else if |parts| == 1 then parts[0]
    else Join(parts[..|parts| - 1], sep) + sep + parts[|parts| - 1]
  }

  /** `s.lstrip()`: drops the leading whitespace, keeps the rest verbatim. */
  function TrimStart(s: string): (r: string)
    decreases |s|
    ensures |r| <= |s|
    ensures r == [] || !IsSpace(r[0])
  {
    if s != [] && IsSpace(s[0]) then TrimStart(s[1..]) else s
  }

  /** `s.rstrip()`: drops the trailing whitespace, keeps the rest verbatim. */
  function TrimEnd(s: string): (r: string)
    decreases |s|
    ensures |r| <= |s|
    ensures r == [] || !IsSpace(r[|r| - 1])
  {
    if s != [] && IsSpace(s[|s| - 1]) then TrimEnd(s[..|s| - 1]) else s
  }

  /**
    `s.strip()`: the result is the slice of `s` left after removing all
    leading and all trailing whitespace, and neither of its ends is whitespace.
  */
  function Strip(s: string): (r: string)
    ensures Stripped(r)
    ensures |r| <= |s|
  {
    var t := TrimStart(s);
    TrimEndPrefix(t);
    TrimEnd(t)
  }

  /** What `lstrip()` keeps is a suffix of its argument. */
  lemma {:induction false} TrimStartSuffix(s: string)
    ensures TrimStart(s) == s[|s| - |TrimStart(s)|..]
    decreases |s|
  {
    if s != [] && IsSpace(s[0]) {
      TrimStartSuffix(s[1..]);
      var r := TrimStart(s[1..]);
      assert s[1..][|s| - 1 - |r|..] == s[|s| - |r|..];
    }
  }

  /** What `rstrip()` keeps is a prefix of its argument. */
  lemma {:induction false} TrimEndPrefix(s: string)
    ensures TrimEnd(s) == s[..|TrimEnd(s)|]
    decreases |s|
  {
    if s != [] && IsSpace(s[|s| - 1]) {
      TrimEndPrefix(s[..|s| - 1]);
      var r := TrimEnd(s[..|s| - 1]);
      assert s[..|s| - 1][..|r|] == s[..|r|];
    }
  }

  /** `filter(lambda x: x != "", parts)`. */
  function NonEmpty(parts: seq<string>): (r: seq<string>)
    decreases |parts|
  {
    if parts == [] then []
    else NonEmpty(parts[..|parts| - 1]) + (if parts[|parts| - 1] == [] then [] else [parts[|parts| - 1]])
  }

  /** `list(map(lambda x: x.strip(), parts))`. */
  function StripAll(parts: seq<string>): (r: seq<string>)
    decreases |parts|
  {
    if parts == [] then [] else StripAll(parts[..|parts| - 1]) + [Strip(parts[|parts| - 1])]
  }

  /** A non-empty list is its front followed by its last element. */
  lemma Snoc<T>(s: seq<T>)
    requires s != []
    ensures s[..|s| - 1] + [s[|s| - 1]] == s
  {
  }

  // ---------------------------------------------------------------------------
  // split and join

  lemma {:induction false} JoinCons(p: string, rest: seq<string>, sep: string)
    requires rest != []
    ensures Join([p] + rest, sep) == p + sep + Join(rest, sep)
    decreases |rest|
  {
    if |rest| > 1 {
      var front := rest[..|rest| - 1];
      assert ([p] + rest)[..|rest|] == [p] + front;
      JoinCons(p, front, sep);
    }
  }

  /** Concatenating with `""` extends one part at a time. */
  lemma ConcatSnoc(parts: seq<string>, last: string)
    ensures Join(parts + [last], []) == Join(parts, []) + last
  {
    assert (parts + [last])[..|parts|] == parts;
  }

  /** `sep.join(s.split(sep)) == s`: splitting loses nothing but the separators. */
  lemma {:induction false} SplitJoin(s: string, sep: string)
    requires sep != []
    ensures Join(Split(s, sep), sep) == s
    decreases |s|
  {
    match FindFrom(s, sep, 0)
    case None =>
    case Some(i) =>
      var rest := s[i + |sep|..];
      var parts := Split(rest, sep);
      assert Split(s, sep) == [s[..i]] + parts;
      assert Join(parts, sep) == rest by {
        SplitJoin(rest, sep);
      }
      assert Join([s[..i]] + parts, sep) == s[..i] + sep + rest by {
        JoinCons(s[..i], parts, sep);
      }
      Reassemble(s, sep, i);
  }

  /** Cutting `s` around an occurrence of `sep` and gluing it back gives `s`. */
  lemma Reassemble(s: string, sep: string, i: nat)
    requires IsAt(s, sep, i)
    ensures s[..i] + sep + s[i + |sep|..] == s
  {
    assert s == s[..i] + s[i..i + |sep|] + s[i + |sep|..];
  }

  /** `len(s.split(sep)) == s.count(sep) + 1`. */
  lemma {:induction false} SplitCount(s: string, sep: string)
    requires sep != []
    ensures |Split(s, sep)| == Count(s, sep) + 1
    decreases |s|
  {
    match FindFrom(s, sep, 0)
    case None =>
    case Some(i) => SplitCount(s[i + |sep|..], sep);
  }

  /** No piece of `s.split(sep)` contains `sep`. */
  lemma {:induction false} SplitFree(s: string, sep: string)
    requires sep != []
    ensures forall k :: 0 <= k < |Split(s, sep)| ==> Free(Split(s, sep)[k], sep)
    decreases |s|
  {
    var f := FindFrom(s, sep, 0);
    match f
    case None =>
    case Some(i) =>
      var rest := s[i + |sep|..];
      SplitFree(rest, sep);
      forall j | 0 <= j <= i ensures !IsAt(s[..i], sep, j) {
        if j + |sep| <= i {
          assert s[..i][j..j + |sep|] == s[j..j + |sep|];
          assert !IsAt(s, sep, j);
        }
      }
      assert Split(s, sep) == [s[..i]] + Split(rest, sep);
  }

  /** `s.split(sep) == [s]` exactly when `sep` does not occur in `s`. */
  lemma SplitSingle(s: string, sep: string)
    requires sep != []
    ensures Split(s, sep) == [s] <==> Free(s, sep)
    ensures Free(s, sep) ==> Count(s, sep) == 0
  {
    if Free(s, sep) {
      assert FindFrom(s, sep, 0).None?;
    } else {
      assert FindFrom(s, sep, 0).Some?;
    }
  }

  /** Text appended after the first occurrence does not move it. */
  lemma {:induction false} FindFromExtend(s: string, sep: string, u: string, k: nat)
    requires FindFrom(s, sep, k).Some?
    ensures FindFrom(s + u, sep, k) == FindFrom(s, sep, k)
    decreases |s| - k
  {
    assert (s + u)[k..k + |sep|] == s[k..k + |sep|];
    if s[k..k + |sep|] != sep {
      FindFromExtend(s, sep, u, k + 1);
    }
  }

  /** A separator at the very start gives an empty first piece and nothing else changes. */
  lemma SplitLeadingSep(s: string, sep: string)
    requires sep != []
    ensures Split(sep + s, sep) == [[]] + Split(s, sep)
  {
    assert (sep + s)[0..|sep|] == sep;
    assert FindFrom(sep + s, sep, 0) == Some(0);
    assert (sep + s)[|sep|..] == s;
  }

  /** A text without the separator's first character holds no occurrence of it. */
  lemma FreeOfHead(s: string, sep: string)
    requires sep != [] && sep[0] !in s
    ensures Free(s, sep)
  {
    forall i | 0 <= i <= |s| ensures !IsAt(s, sep, i) {
      if i + |sep| <= |s| {
        assert s[i..i + |sep|][0] == s[i] != sep[0];
      }
    }
  }

  /**
    When the text before a separator lacks its first character, the split
    and the count both cut at that separator first.
  */
  lemma SplitAtFirst(a: string, sep: string, b: string)
    requires sep != [] && sep[0] !in a
    ensures Split(a + sep + b, sep) == [a] + Split(b, sep)
    ensures Count(a + sep + b, sep) == 1 + Count(b, sep)
  {
    var s := a + sep + b;
    assert IsAt(s, sep, |a|) by {
      assert s[|a|..|a| + |sep|] == sep;
    }
    assert FindFrom(s, sep, 0) == Some(|a|) by {
      var i := FindFrom(s, sep, 0).value;
      assert s[i..i + |sep|][0] == s[i];
    }
    assert s[..|a|] == a;
    assert s[|a| + |sep|..] == b;
  }

  /**
    `sep.join(parts).split(sep) == parts` when no part holds the
    separator's first character; the count is then one less than the
    number of parts.
  */
  lemma {:induction false} JoinSplit(parts: seq<string>, sep: string)
    requires sep != [] && parts != []
    requires forall k :: 0 <= k < |parts| ==> sep[0] !in parts[k]
    ensures Split(Join(parts, sep), sep) == parts
    ensures Count(Join(parts, sep), sep) == |parts| - 1
    decreases |parts|
  {
    if |parts| == 1 {
      FreeOfHead(parts[0], sep);
      SplitSingle(parts[0], sep);
    } else {
      var rest := parts[1..];
      assert parts == [parts[0]] + rest;
      JoinCons(parts[0], rest, sep);
      SplitAtFirst(parts[0], sep, Join(rest, sep));
      JoinSplit(rest, sep);
    }
  }

  /** `d.join([a, b, c])` written out. */
  lemma JoinThree(a: string, b: string, c: string, d: string)
    ensures Join([a, b, c], d) == a + d + b + d + c
  {
    assert [a, b, c][..2] == [a, b] && [a, b][..1] == [a];
    assert Join([a, b], d) == a + d + b;
  }

  /** `d.join([a, b, c, e, f])` written out. */
  lemma JoinFive(a: string, b: string, c: string, e: string, f: string, d: string)
    ensures Join([a, b, c, e, f], d) == a + d + b + d + c + d + e + d + f
  {
    JoinThree(a, b, c, d);
    assert [a, b, c, e, f][..4] == [a, b, c, e] && [a, b, c, e][..3] == [a, b, c];
  }

  /** `d.join([a, b, c, e, f, g, h])` written out. */
  lemma JoinSeven(a: string, b: string, c: string, e: string, f: string, g: string, h: string, d: string)
    ensures Join([a, b, c, e, f, g, h], d) == a + d + b + d + c + d + e + d + f + d + g + d + h
  {
    JoinFive(a, b, c, e, f, d);
    assert [a, b, c, e, f, g, h][..6] == [a, b, c, e, f, g] && [a, b, c, e, f, g][..5] == [a, b, c, e, f];
  }

  /** A one-character separator: a piece of the split has no such character. */
  lemma FreeChar(s: string, c: char)
    requires Free(s, [c])
    ensures c !in s
  {
    if c in s {
      var i :| 0 <= i < |s| && s[i] == c;
      assert s[i..i + 1] == [c];
      assert IsAt(s, [c], i);
    }
  }

  lemma SliceOfSlice(s: string, a: nat, b: nat, i: nat, j: nat)
    requires a <= b <= |s| && i <= j <= b - a
    ensures s[a..b][i..j] == s[a + i..a + j]
  {
    var u := s[a..b][i..j];
    var w := s[a + i..a + j];
    forall k | 0 <= k < |u| ensures u[k] == w[k] {
      assert u[k] == s[a..b][i + k] == s[a + i + k];
    }
  }

  /** A slice of a string that does not contain `sep` does not contain it either. */
  lemma FreeSlice(s: string, sep: string, a: nat, b: nat)
    requires a <= b <= |s| && Free(s, sep)
    ensures Free(s[a..b], sep)
  {
    forall i | 0 <= i <= b - a ensures !IsAt(s[a..b], sep, i) {
      if i + |sep| <= b - a {
        SliceOfSlice(s, a, b, i, i + |sep|);
        assert !IsAt(s, sep, a + i);
      }
    }
  }

  // ---------------------------------------------------------------------------
  // strip

  /** What `lstrip()` removes is whitespace only. */
  lemma {:induction false} TrimStartRemoves(s: string)
    ensures AllSpace(s[..|s| - |TrimStart(s)|])
    decreases |s|
  {
    if s != [] && IsSpace(s[0]) {
      var r := TrimStart(s[1..]);
      TrimStartRemoves(s[1..]);
      assert s[1..][..|s| - 1 - |r|] == s[1..|s| - |r|];
      forall i | 0 <= i < |s| - |r| ensures IsSpace(s[i]) {
        if i > 0 {
          assert s[i] == s[1..][..|s| - 1 - |r|][i - 1];
        }
      }
    }
  }

  /** What `rstrip()` removes is whitespace only. */
  lemma {:induction false} TrimEndRemoves(s: string)
    ensures AllSpace(s[|TrimEnd(s)|..])
    decreases |s|
  {
    if s != [] && IsSpace(s[|s| - 1]) {
      var front := s[..|s| - 1];
      var r := TrimEnd(front);
      TrimEndRemoves(front);
      forall i | |r| <= i < |s| ensures IsSpace(s[i]) {
        if i < |s| - 1 {
          assert front[|r|..][i - |r|] == front[i] == s[i];
        }
      }
      assert TrimEnd(s) == r;
    }
  }

  /**
    `s.strip()` is the slice of `s` left after removing whitespace at both
    ends, and what it removes is whitespace only.
  */
  lemma StripSlice(s: string)
    ensures exists a :: 0 <= a && a + |Strip(s)| <= |s| && Strip(s) == s[a..a + |Strip(s)|]
                         && AllSpace(s[..a]) && AllSpace(s[a + |Strip(s)|..])
  {
    var t := TrimStart(s);
    var r := TrimEnd(t);
    var a := |s| - |t|;
    assert Strip(s) == r;
    assert t == s[a..] by {
      TrimStartSuffix(s);
    }
    assert r == t[..|r|] by {
      TrimEndPrefix(t);
    }
    SuffixSlices(s, a, |r|);
    TrimStartRemoves(s);
    TrimEndRemoves(t);
  }

  /** Slicing a suffix is slicing the whole string further on. */
  lemma SuffixSlices(s: string, a: nat, n: nat)
    requires a + n <= |s|
    ensures s[a..][..n] == s[a..a + n] && s[a..][n..] == s[a + n..]
  {
  }

  lemma {:induction false} TrimStartAllSpace(s: string)
    requires AllSpace(s)
    ensures TrimStart(s) == []
    decreases |s|
  {
    if s != [] {
      TrimStartAllSpace(s[1..]);
    }
  }

  /** `s.strip() == ""` exactly when `s` is empty or whitespace only. */
  lemma StripEmpty(s: string)
    ensures Strip(s) == [] <==> AllSpace(s)
  {
    if AllSpace(s) {
      TrimStartAllSpace(s);
    }
    if Strip(s) == [] {
      StripSlice(s);
      var a :| 0 <= a <= |s| && AllSpace(s[..a]) && AllSpace(s[a..]);
      forall i | 0 <= i < |s| ensures IsSpace(s[i]) {
        if i < a { assert s[..a][i] == s[i]; } else { assert s[a..][i - a] == s[i]; }
      }
    }
  }

  /** Stripping never brings `sep` into a string that does not contain it. */
  lemma StripFree(s: string, sep: string)
    requires Free(s, sep)
    ensures Free(Strip(s), sep)
  {
    var t := TrimStart(s);
    TrimStartSuffix(s);
    TrimEndPrefix(t);
    FreeSlice(s, sep, |s| - |t|, |s|);
    assert s[|s| - |t|..|s|] == t;
    var r := TrimEnd(t);
    FreeSlice(t, sep, 0, |r|);
    assert t[0..|r|] == r;
  }

  /** `strip()` leaves a string whose ends are not whitespace unchanged (line breaks inside are kept). */
  lemma StripNoop(s: string)
    requires Stripped(s)
    ensures Strip(s) == s
  {
  }

  // ---------------------------------------------------------------------------
  // filter and map

  lemma {:induction false} NonEmptyPrefix(parts: seq<string>, k: nat)
    requires k <= |parts|
    ensures NonEmpty(parts) == NonEmpty(parts[..k]) + NonEmpty(parts[k..])
    decreases |parts| - k
  {
    if k == |parts| {
      assert parts[..k] == parts;
    } else {
      // NonEmpty(parts[k..]) peels the same last element as NonEmpty(parts)
      var n := |parts|;
      NonEmptyPrefix(parts[..n - 1], k);
      assert parts[..n - 1][..k] == parts[..k];
      assert parts[k..][..n - 1 - k] == parts[..n - 1][k..];
    }
  }

  /** The filter distributes over concatenation. */
  lemma NonEmptyAppend(x: seq<string>, y: seq<string>)
    ensures NonEmpty(x + y) == NonEmpty(x) + NonEmpty(y)
  {
    NonEmptyPrefix(x + y, |x|);
    assert (x + y)[..|x|] == x && (x + y)[|x|..] == y;
  }

  /**
    The filter keeps order: a non-empty `parts[i]` lands at position
    "number of non-empty parts before `i`" of the result.
  */
  lemma NonEmptyAt(parts: seq<string>, i: nat)
    requires i < |parts| && parts[i] != []
    ensures |NonEmpty(parts[..i])| < |NonEmpty(parts)|
    ensures NonEmpty(parts)[|NonEmpty(parts[..i])|] == parts[i]
  {
    NonEmptyPrefix(parts, i + 1);
    assert parts[..i + 1][..i] == parts[..i];
  }

  /** Every element the filter keeps is a non-empty element of the input. */
  lemma {:induction false} NonEmptyFrom(parts: seq<string>)
    ensures |NonEmpty(parts)| <= |parts|
    ensures forall j :: 0 <= j < |NonEmpty(parts)| ==> NonEmpty(parts)[j] != [] && NonEmpty(parts)[j] in parts
    decreases |parts|
  {
    if parts != [] {
      var n := |parts|;
      NonEmptyFrom(parts[..n - 1]);
      var front := parts[..n - 1];
      var kept := NonEmpty(front);
      assert parts == front + [parts[n - 1]];
      forall j | 0 <= j < |kept| ensures kept[j] in parts {
        assert kept[j] in front;
      }
    }
  }

  /** The filter is the identity on a list that holds no empty string. */
  lemma {:induction false} NonEmptyKeepsAll(parts: seq<string>)
    requires forall j :: 0 <= j < |parts| ==> parts[j] != []
    ensures NonEmpty(parts) == parts
    decreases |parts|
  {
    if parts != [] {
      var n := |parts|;
      var front := parts[..n - 1];
      assert forall j :: 0 <= j < |front| ==> front[j] == parts[j];
      NonEmptyKeepsAll(front);
      assert parts == front + [parts[n - 1]];
    }
  }

  /** The index in the input of the `j`th element the filter keeps. */
  lemma NonEmptySource(parts: seq<string>, j: nat) returns (k: nat)
    requires j < |NonEmpty(parts)|
    ensures k < |parts| && parts[k] == NonEmpty(parts)[j]
  {
    NonEmptyFrom(parts);
    assert NonEmpty(parts)[j] in parts;
    k :| 0 <= k < |parts| && parts[k] == NonEmpty(parts)[j];
  }

  /** Dropping empty strings does not change their concatenation. */
  lemma {:induction false} NonEmptyConcat(parts: seq<string>)
    ensures Join(NonEmpty(parts), []) == Join(parts, [])
    decreases |parts|
  {
    if parts != [] {
      var n := |parts|;
      var front := parts[..n - 1];
      NonEmptyConcat(front);
      ConcatSnoc(front, parts[n - 1]);
      assert parts == front + [parts[n - 1]];
      if parts[n - 1] != [] {
        ConcatSnoc(NonEmpty(front), parts[n - 1]);
      } else {
        assert NonEmpty(parts) == NonEmpty(front);
      }
    }
  }

  /** The map is the identity on a list of strings with no whitespace at their ends. */
  lemma {:induction false} StripAllKeepsAll(parts: seq<string>)
    requires forall j :: 0 <= j < |parts| ==> Stripped(parts[j])
    ensures StripAll(parts) == parts
    decreases |parts|
  {
    if parts != [] {
      var n := |parts|;
      var front := parts[..n - 1];
      assert forall j :: 0 <= j < |front| ==> front[j] == parts[j];
      StripAllKeepsAll(front);
      StripNoop(parts[n - 1]);
      Snoc(parts);
    }
  }

  /** The filter on a single string. */
  lemma NonEmptyOne(p: string)
    ensures NonEmpty([p]) == if p == [] then [] else [p]
  {
    assert [p][..0] == [];
  }

  /** The map on a list with one more string at its end. */
  lemma StripAllSnoc(x: seq<string>, p: string)
    ensures StripAll(x + [p]) == StripAll(x) + [Strip(p)]
  {
    var z := x + [p];
    assert z[..|z| - 1] == x;
  }

  /**
    Stripping then dropping empty strings is the same as dropping then
    stripping, as long as no non-empty string is whitespace only.
  */
  lemma {:induction false} FilterStripCommute(parts: seq<string>)
    requires forall j :: 0 <= j < |parts| ==> parts[j] == [] || !AllSpace(parts[j])
    ensures NonEmpty(StripAll(parts)) == StripAll(NonEmpty(parts))
    decreases |parts|
  {
    if parts != [] {
      var n := |parts|;
      var front := parts[..n - 1];
      var last := parts[n - 1];
      assert forall j :: 0 <= j < |front| ==> front[j] == parts[j];
      FilterStripCommute(front);
      var sf := StripAll(front);
      var t := Strip(last);
      assert StripAll(parts) == sf + [t];
      StripEmpty(last);
      assert NonEmpty(StripAll(parts)) == NonEmpty(sf) + NonEmpty([t]) by {
        NonEmptyAppend(sf, [t]);
      }
      NonEmptyOne(t);
      if last == [] {
        assert NonEmpty(parts) == NonEmpty(front);
      } else {
        assert NonEmpty(parts) == NonEmpty(front) + [last];
        StripAllSnoc(NonEmpty(front), last);
      }
    }
  }

  /** The map keeps length and order: the `i`th result is `parts[i].strip()`. */
  lemma {:induction false} StripAllAt(parts: seq<string>)
    ensures |StripAll(parts)| == |parts|
    ensures forall i :: 0 <= i < |parts| ==> StripAll(parts)[i] == Strip(parts[i])
    decreases |parts|
  {
    if parts != [] {
      var n := |parts|;
      var front := parts[..n - 1];
      StripAllAt(front);
      assert StripAll(parts) == StripAll(front) + [Strip(parts[n - 1])];
      forall i | 0 <= i < n ensures StripAll(parts)[i] == Strip(parts[i]) {
        if i < n - 1 {
          assert front[i] == parts[i];
        }
      }
    }
  }
}
