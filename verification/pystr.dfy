/** The Python `str` operations the two scripts are built from, over `seq<char>`:
    `find`, `replace`, `split(sep)`, `join`, the "drop empty pieces" list
    comprehension, ASCII case mapping, whitespace stripping, `capwords` and
    code-point string ordering. */
module PyStr {
  import opened Wrappers

  /** `t` occurs in `s` starting at index `i`. */
  predicate OccursAt(s: string, t: string, i: int) {
    0 <= i && i + |t| <= |s| && s[i..i + |t|] == t
  }

  /** `t in s`, Python's substring test. */
  ghost predicate Contains(s: string, t: string) {
    exists i :: OccursAt(s, t, i)
  }

  /** The first occurrence of `t` in `s` at or after index `k`. */
  function FindFrom(s: string, t: string, k: nat): (r: Option<nat>)
    requires |t| > 0 && k <= |s|
    ensures r.Some? ==> k <= r.value && OccursAt(s, t, r.value)
    ensures forall j :: k <= j && (r.None? || j < r.value) ==> !OccursAt(s, t, j)
    decreases |s| - k
  {
    if k + |t| > |s| then None
    else if OccursAt(s, t, k) then Some(k)
    else FindFrom(s, t, k + 1)
  }

  /** `s.find(t)`, with `None` for Python's -1. */
  function Find(s: string, t: string): (r: Option<nat>)
    requires |t| > 0
    ensures r.None? <==> !Contains(s, t)
    ensures r.Some? ==> OccursAt(s, t, r.value)
    ensures r.Some? ==> forall j :: 0 <= j < r.value ==> !OccursAt(s, t, j)
  {
    FindFrom(s, t, 0)
  }

  /** An occurrence inside a slice is an occurrence in the whole string. */
  lemma OccursInSlice(s: string, t: string, lo: int, hi: int, j: int)
    requires 0 <= lo <= hi <= |s|
    ensures OccursAt(s[lo..hi], t, j) <==> (0 <= j && j + |t| <= hi - lo && OccursAt(s, t, lo + j))
  {
    if 0 <= j && j + |t| <= hi - lo {
      var u := s[lo..hi];
      forall y | j <= y < j + |t|
        ensures u[y] == s[lo + y]
      {
      }
      assert u[j..j + |t|] == s[lo + j..lo + j + |t|];
    }
  }

  /** A prefix that ends before the first occurrence of `t` does not contain `t`. */
  lemma PrefixAvoids(s: string, t: string, i: int)
    requires |t| > 0 && 0 <= i <= |s|
    requires forall j :: 0 <= j < i ==> !OccursAt(s, t, j)
    ensures !Contains(s[..i], t)
  {
    assert s[..i] == s[0..i];
    forall j
      ensures !OccursAt(s[..i], t, j)
    {
      OccursInSlice(s, t, 0, i, j);
    }
  }

  /** A suffix of a string without `t` does not contain `t`. */
  lemma SuffixAvoids(s: string, t: string, i: int)
    requires 0 <= i <= |s| && !Contains(s, t)
    ensures !Contains(s[i..], t)
  {
    forall j
      ensures !OccursAt(s[i..], t, j)
    {
      OccursInSlice(s, t, i, |s|, j);
    }
  }

  /** `s.replace(pat, rep)`: every occurrence of `pat`, scanning left to right
      without overlap, is replaced by `rep`. */
  function Replace(s: string, pat: string, rep: string): (r: string)
    requires |pat| > 0
    ensures !Contains(s, pat) ==> r == s
    ensures |rep| <= |pat| ==> |r| <= |s|
    ensures |rep| < |pat| && Contains(s, pat) ==> |r| < |s|
    ensures |rep| == |pat| ==> |r| == |s|
    ensures |rep| > 0 && s != "" ==> r != ""
    decreases |s|
  {
    match Find(s, pat)
    case None => s
    case Some(i) => s[..i] + rep + Replace(s[i + |pat|..], pat, rep)
  }

  /** `sep.join(parts)`. */
  function Join(parts: seq<string>, sep: string): string
  {
    if |parts| == 0 then ""
    else if |parts| == 1 then parts[0]
    else parts[0] + sep + Join(parts[1..], sep)
  }

  /** A join starts with its first piece. */
  lemma {:induction false} JoinStartsWithFirst(parts: seq<string>, sep: string)
    requires |parts| > 0
    ensures |parts[0]| <= |Join(parts, sep)| && Join(parts, sep)[..|parts[0]|] == parts[0]
  {
    if |parts| > 1 {
      var tail := sep + Join(parts[1..], sep);
      assert Join(parts, sep) == parts[0] + tail;
    }
  }

  /** `''.join(parts)`. */
  function Concat(parts: seq<string>): string
  {
    if parts == [] then "" else parts[0] + Concat(parts[1..])
  }

  /** A concatenation holds only characters of its pieces. */
  lemma {:induction false} ConcatAvoids(parts: seq<string>, c: char)
    requires forall k :: 0 <= k < |parts| ==> c !in parts[k]
    ensures c !in Concat(parts)
    decreases |parts|
  {
    if parts != [] {
      ConcatAvoids(parts[1..], c);
    }
  }

  /** `s.split(sep)` for a non-empty separator: the pieces between the
      occurrences of `sep`, empty pieces included. */
  function Split(s: string, sep: string): (r: seq<string>)
    requires |sep| > 0
    ensures |r| >= 1
    ensures forall k :: 0 <= k < |r| ==> !Contains(r[k], sep)
    ensures Join(r, sep) == s
    ensures !Contains(s, sep) ==> r == [s]
    decreases |s|
  {
    match Find(s, sep)
    case None => [s]
    case Some(i) =>
      PrefixAvoids(s, sep, i);
      var rest := Split(s[i + |sep|..], sep);
      assert s == s[..i] + sep + s[i + |sep|..] by {
        assert s[i..i + |sep|] == sep;
        assert s == s[..i] + s[i..i + |sep|] + s[i + |sep|..];
      }
      assert ([s[..i]] + rest)[1..] == rest;
      [s[..i]] + rest
  }

  /** `[p for p in parts if p]`. */
  function NonEmpty(parts: seq<string>): (r: seq<string>)
    ensures |r| <= |parts|
    ensures forall k :: 0 <= k < |r| ==> r[k] != "" && r[k] in parts
    ensures Concat(r) == Concat(parts)
    ensures (forall k :: 0 <= k < |parts| ==> parts[k] != "") ==> r == parts
  {
    if parts == [] then []
    else
      var rest := NonEmpty(parts[1..]);
      if parts[0] == "" then
        assert Concat(parts) == Concat(parts[1..]);
        rest
      else
        assert ([parts[0]] + rest)[1..] == rest;
        [parts[0]] + rest
  }

  /** Dropping empty pieces works piece by piece: with the empty input giving
      `[]` and a single piece kept exactly when non-empty (both from the
      contract above), this fixes the order and multiplicity of the result. */
  lemma {:induction false} NonEmptyAppend(a: seq<string>, b: seq<string>)
    ensures NonEmpty(a + b) == NonEmpty(a) + NonEmpty(b)
    decreases |a|
  {
    if a == [] {
      assert a + b == b;
    } else {
      assert (a + b)[0] == a[0];
      assert (a + b)[1..] == a[1..] + b;
      NonEmptyAppend(a[1..], b);
    }
  }

  /** Concatenating the pieces of a split deletes the separators. */
  lemma {:induction false} ConcatSplit(s: string, sep: string)
    requires |sep| > 0
    ensures Concat(Split(s, sep)) == Replace(s, sep, "")
    decreases |s|
  {
    match Find(s, sep)
    case None =>
    case Some(i) =>
      var rest := Split(s[i + |sep|..], sep);
      ConcatSplit(s[i + |sep|..], sep);
      assert Split(s, sep) == [s[..i]] + rest;
      assert ([s[..i]] + rest)[1..] == rest;
  }

  /** Python's identity `s.replace(a, b) == b.join(s.split(a))`. */
  lemma {:induction false} ReplaceIsJoinOfSplit(s: string, pat: string, rep: string)
    requires |pat| > 0
    ensures Replace(s, pat, rep) == Join(Split(s, pat), rep)
    decreases |s|
  {
    match Find(s, pat)
    case None =>
    case Some(i) =>
      var rest := Split(s[i + |pat|..], pat);
      ReplaceIsJoinOfSplit(s[i + |pat|..], pat, rep);
      assert Split(s, pat) == [s[..i]] + rest;
      assert ([s[..i]] + rest)[1..] == rest;
  }

  /** The non-empty pieces of `s.split(sep)`, as in
      `[item for item in s.split(sep) if item]`. */
  function Parts(s: string, sep: string): (r: seq<string>)
    requires |sep| > 0
    ensures forall k :: 0 <= k < |r| ==> r[k] != "" && !Contains(r[k], sep)
    ensures Concat(r) == Replace(s, sep, "")
    ensures s == "" ==> r == []
    ensures s != "" && !Contains(s, sep) ==> r == [s]
  {
    var pieces := Split(s, sep);
    ConcatSplit(s, sep);
    NonEmpty(pieces)
  }

  /** `sep` has no proper border: no proper suffix of it is also a prefix, so
      two occurrences of `sep` can never overlap. */
  ghost predicate Unbordered(sep: string) {
    forall m :: 0 < m < |sep| ==> sep[m..] != sep[..|sep| - m]
  }

  /** An occurrence of `sep` in `p + sep + rest` that starts inside `p` lies
      entirely inside `p` or overlaps the following `sep` in a border. */
  lemma EarlyOccurrence(p: string, sep: string, rest: string, j: int)
    requires 0 <= j < |p|
    ensures OccursAt(p + sep + rest, sep, j) && j + |sep| <= |p| ==> OccursAt(p, sep, j)
    ensures OccursAt(p + sep + rest, sep, j) && j + |sep| > |p| ==>
              sep[|p| - j..] == sep[..|sep| - (|p| - j)]
  {
    var s := p + sep + rest;
    OccursInSlice(s, sep, 0, |p|, j);
    assert s[..|p|] == p;
    if OccursAt(s, sep, j) && j + |sep| > |p| {
      var m := |p| - j;
      assert s[|p|..|p| + |sep|] == sep;
      forall x | 0 <= x < |sep| - m
        ensures sep[m..][x] == sep[..|sep| - m][x]
      {
        assert sep[m + x] == s[j + m + x];
        assert s[|p| + x] == sep[x];
      }
    }
  }

  /** The first occurrence of an unbordered `sep` in `p + sep + rest`, when `p`
      does not contain it, is the one right after `p`. */
  lemma FindAfterPiece(p: string, sep: string, rest: string)
    requires |sep| > 0 && Unbordered(sep) && !Contains(p, sep)
    ensures Find(p + sep + rest, sep) == Some(|p|)
  {
    var s := p + sep + rest;
    assert s[|p|..|p| + |sep|] == sep;
    assert OccursAt(s, sep, |p|);
    forall j | 0 <= j < |p|
      ensures !OccursAt(s, sep, j)
    {
      EarlyOccurrence(p, sep, rest, j);
    }
  }

  /** Round trip: splitting a join recovers the pieces, when no piece
      contains the (unbordered) separator. */
  lemma {:induction false} SplitOfJoin(parts: seq<string>, sep: string)
    requires |sep| > 0 && Unbordered(sep) && |parts| > 0
    requires forall k :: 0 <= k < |parts| ==> !Contains(parts[k], sep)
    ensures Split(Join(parts, sep), sep) == parts
    decreases |parts|
  {
    if |parts| > 1 {
      var rest := Join(parts[1..], sep);
      FindAfterPiece(parts[0], sep, rest);
      var s := parts[0] + sep + rest;
      assert s[|parts[0]| + |sep|..] == rest;
      SplitOfJoin(parts[1..], sep);
      assert parts == [parts[0]] + parts[1..];
    }
  }

  /** Round trip for the filtered form: the non-empty parts of a join are the
      non-empty pieces, in order; all the pieces when none is empty. */
  lemma PartsOfJoin(parts: seq<string>, sep: string)
    requires |sep| > 0 && Unbordered(sep)
    requires forall k :: 0 <= k < |parts| ==> !Contains(parts[k], sep)
    ensures Parts(Join(parts, sep), sep) == NonEmpty(parts)
    ensures (forall k :: 0 <= k < |parts| ==> parts[k] != "") ==> Parts(Join(parts, sep), sep) == parts
  {
    if |parts| > 0 {
      SplitOfJoin(parts, sep);
    }
  }

  /** The first occurrence of `t` in `a` is also the first in `a + rest`. */
  lemma FindInPrefix(a: string, rest: string, t: string, i: int)
    requires |t| > 0 && Find(a, t).Some? && Find(a, t).value == i
    ensures Find(a + rest, t).Some? && Find(a + rest, t).value == i
  {
    var s := a + rest;
    assert s[0..|a|] == a;
    OccursInSlice(s, t, 0, |a|, i);
    forall j | 0 <= j < i
      ensures !OccursAt(s, t, j)
    {
      OccursInSlice(s, t, 0, |a|, j);
    }
    FindIs(s, t, i);
  }

  /** The pieces `Split` gives when the first separator is at `k`. */
  function SplitStep(s: string, sep: string, k: nat): seq<string>
    requires |sep| > 0 && k + |sep| <= |s|
  {
    [s[..k]] + Split(s[k + |sep|..], sep)
  }

  lemma SplitFirst(s: string, sep: string)
    requires |sep| > 0 && Find(s, sep).Some?
    ensures Find(s, sep).value + |sep| <= |s|
    ensures Split(s, sep) == SplitStep(s, sep, Find(s, sep).value)
  {
  }

  lemma SplitStepIs(s: string, sep: string, k: nat)
    requires |sep| > 0 && k + |sep| <= |s|
    ensures SplitStep(s, sep, k) == [s[..k]] + Split(s[k + |sep|..], sep)
  {
  }

  /** The first piece of a split is the whole string, or it stops at the
      first separator. */
  lemma FirstPieceEnds(s: string, sep: string)
    requires |sep| > 0
    ensures |Split(s, sep)[0]| < |s| ==> OccursAt(s, sep, |Split(s, sep)[0]|)
  {
    match Find(s, sep)
    case Some(k) =>
      SplitAt(s, sep, k);
    case None =>
  }

  /** One step of `Split` at the first separator, found at `k`. */
  lemma SplitAt(s: string, sep: string, k: nat)
    requires |sep| > 0 && Find(s, sep).Some? && Find(s, sep).value == k
    ensures k + |sep| <= |s|
    ensures Split(s, sep) == [s[..k]] + Split(s[k + |sep|..], sep)
  {
    SplitFirst(s, sep);
    SplitStepIs(s, sep, k);
  }

  /** Splitting at a separator placed between two texts splits each text on
      its own. */
  lemma {:induction false} SplitOfSeparated(a: string, b: string, sep: string)
    requires |sep| > 0 && Unbordered(sep)
    ensures Split(a + sep + b, sep) == Split(a, sep) + Split(b, sep)
    decreases |a|
  {
    if Find(a, sep).None? {
      FindAfterPiece(a, sep, b);
      SeparatedFirst(a, b, sep);
    } else {
      var i := Find(a, sep).value;
      SplitAt(a, sep, i);
      SplitOfSeparated(a[i + |sep|..], b, sep);
      SeparatedLater(a, b, sep, i);
    }
  }

  /** `SplitOfSeparated` when the middle separator is the first occurrence. */
  lemma SeparatedFirst(a: string, b: string, sep: string)
    requires |sep| > 0 && Find(a, sep).None?
    requires Find(a + sep + b, sep).Some? && Find(a + sep + b, sep).value == |a|
    ensures Split(a + sep + b, sep) == Split(a, sep) + Split(b, sep)
  {
    var s := a + sep + b;
    SplitAt(s, sep, |a|);
    assert s[..|a|] == a;
    assert s[|a| + |sep|..] == b;
    assert Split(a, sep) == [a];
  }

  /** `SplitOfSeparated` when `a` holds the first occurrence. */
  lemma SeparatedLater(a: string, b: string, sep: string, i: int)
    requires |sep| > 0 && Find(a, sep).Some? && Find(a, sep).value == i
    requires i + |sep| <= |a|
    requires Split(a[i + |sep|..] + sep + b, sep) == Split(a[i + |sep|..], sep) + Split(b, sep)
    ensures Split(a + sep + b, sep) == Split(a, sep) + Split(b, sep)
  {
    var rest := a[i + |sep|..];
    SplitPrefixStep(a, sep + b, sep, i);
    assert Split(rest + (sep + b), sep) == Split(rest, sep) + Split(b, sep) by {
      Reassociate(rest, sep, b);
    }
    assert Split(a, sep) == [a[..i]] + Split(rest, sep) by {
      SplitAt(a, sep, i);
    }
    assert a + sep + b == a + (sep + b) by {
      Reassociate(a, sep, b);
    }
    Regather(Split(a + (sep + b), sep), Split(a, sep), a[..i], Split(rest, sep), Split(b, sep));
  }

  /** The first cut of `a + tail` is the first cut of `a`. */
  lemma SplitPrefixStep(a: string, tail: string, sep: string, i: int)
    requires |sep| > 0 && Find(a, sep).Some? && Find(a, sep).value == i
    ensures 0 <= i && i + |sep| <= |a|
    ensures Split(a + tail, sep) == [a[..i]] + Split(a[i + |sep|..] + tail, sep)
  {
    var s := a + tail;
    FindInPrefix(a, tail, sep, i);
    var u := s[i + |sep|..];
    var v := a[i + |sep|..] + tail;
    assert s[..i] == a[..i] && u == v by {
      SliceOfAppend(a, tail, i);
      SliceOfAppend(a, tail, i + |sep|);
    }
    assert Split(s, sep) == [s[..i]] + Split(u, sep) by {
      SplitAt(s, sep, i);
    }
    Cons(s[..i], a[..i], Split(u, sep), Split(v, sep));
  }

  lemma Cons(h: string, h': string, r: seq<string>, r': seq<string>)
    requires h == h' && r == r'
    ensures [h] + r == [h'] + r'
  {
  }

  /** Sequence bookkeeping for `SeparatedLater`. */
  lemma Regather(whole: seq<string>, left: seq<string>, h: string, r: seq<string>, right: seq<string>)
    requires whole == [h] + (r + right) && left == [h] + r
    ensures whole == left + right
  {
  }

  /** The parts of two texts around a separator are the parts of each. With
      the empty text giving no part and separator-free text giving itself,
      this fixes where `Parts` cuts. */
  lemma PartsOfSeparated(a: string, b: string, sep: string)
    requires |sep| > 0 && Unbordered(sep)
    ensures Parts(a + sep + b, sep) == Parts(a, sep) + Parts(b, sep)
  {
    SplitOfSeparated(a, b, sep);
    NonEmptyAppend(Split(a, sep), Split(b, sep));
  }

  /** A single-character pattern occurs exactly where that character is. */
  lemma OccursChar(s: string, c: char, j: int)
    ensures OccursAt(s, [c], j) <==> (0 <= j < |s| && s[j] == c)
  {
    if 0 <= j < |s| {
      assert s[j..j + 1] == [s[j]];
    }
  }

  lemma ContainsChar(s: string, c: char)
    ensures Contains(s, [c]) <==> c in s
  {
    if c in s {
      var j :| 0 <= j < |s| && s[j] == c;
      OccursChar(s, c, j);
    }
    forall j
      ensures OccursAt(s, [c], j) ==> c in s
    {
      OccursChar(s, c, j);
    }
  }

  /** Replacing can only introduce characters of the replacement text. */
  lemma {:induction false} ReplaceKeepsOut(s: string, pat: string, rep: string, c: char)
    requires |pat| > 0 && c !in s && c !in rep
    ensures c !in Replace(s, pat, rep)
    decreases |s|
  {
    match Find(s, pat)
    case None =>
    case Some(i) =>
      var tail := s[i + |pat|..];
      assert c !in s[..i] && c !in tail by {
        assert s == s[..i] + s[i..i + |pat|] + tail;
      }
      ReplaceKeepsOut(tail, pat, rep, c);
      ReplaceAt(s, pat, rep, i);
  }

  /** Replacing a single character by text without it removes every occurrence. */
  lemma {:induction false} ReplaceCharRemoves(s: string, c: char, rep: string)
    requires c !in rep
    ensures c !in Replace(s, [c], rep)
    decreases |s|
  {
    match Find(s, [c])
    case None =>
      ContainsChar(s, c);
    case Some(i) =>
      var head := s[..i];
      forall j | 0 <= j < i
        ensures head[j] != c
      {
        OccursChar(s, c, j);
      }
      ReplaceCharRemoves(s[i + 1..], c, rep);
      ReplaceAt(s, [c], rep, i);
  }

  /** `s` with every `c` turned into `d`, character by character. */
  function MapChar(s: string, c: char, d: char): (r: string)
    ensures |r| == |s|
    ensures forall i :: 0 <= i < |s| ==> r[i] == (if s[i] == c then d else s[i])
  {
    seq(|s|, i requires 0 <= i < |s| => if s[i] == c then d else s[i])
  }

  /** `s` with every `c` left out, the others kept in order. */
  function DropChar(s: string, c: char): (r: string)
    ensures c !in r && |r| <= |s|
    decreases |s|
  {
    if s == [] then []
    else (if s[0] == c then [] else [s[0]]) + DropChar(s[1..], c)
  }

  lemma {:induction false} DropCharAppend(a: string, b: string, c: char)
    ensures DropChar(a + b, c) == DropChar(a, c) + DropChar(b, c)
    decreases |a|
  {
    if a != [] {
      assert (a + b)[0] == a[0];
      assert (a + b)[1..] == a[1..] + b;
      DropCharAppend(a[1..], b, c);
    } else {
      assert a + b == b;
    }
  }

  lemma {:induction false} DropCharAbsent(s: string, c: char)
    requires c !in s
    ensures DropChar(s, c) == s
    decreases |s|
  {
    if s != [] {
      DropCharAbsent(s[1..], c);
      assert [s[0]] + s[1..] == s;
    }
  }

  /** Replacing one character by another maps the text character by
      character. */
  lemma {:induction false} ReplaceCharByChar(s: string, c: char, d: char)
    ensures Replace(s, [c], [d]) == MapChar(s, c, d)
    decreases |s|
  {
    if Find(s, [c]).None? {
      ContainsChar(s, c);
      assert MapChar(s, c, d) == s;
    } else {
      var i := Find(s, [c]).value;
      var rest := s[i + 1..];
      assert Replace(s, [c], [d]) == s[..i] + [d] + Replace(rest, [c], [d]) by {
        ReplaceAt(s, [c], [d], i);
      }
      ReplaceCharByChar(rest, c, d);
      assert MapChar(s, c, d) == s[..i] + [d] + MapChar(rest, c, d) by {
        OccursChar(s, c, i);
        MapCharAt(s, c, d, i);
      }
    }
  }

  lemma MapCharAt(s: string, c: char, d: char, i: int)
    requires 0 <= i < |s| && s[i] == c
    requires forall j :: 0 <= j < i ==> !OccursAt(s, [c], j)
    ensures MapChar(s, c, d) == s[..i] + [d] + MapChar(s[i + 1..], c, d)
  {
    var rest := s[i + 1..];
    var m := MapChar(s, c, d);
    forall k | 0 <= k < |m|
      ensures m[k] == (s[..i] + [d] + MapChar(rest, c, d))[k]
    {
      if k < i {
        OccursChar(s, c, k);
      } else if k > i {
        assert rest[k - i - 1] == s[k];
      }
    }
  }

  /** Replacing one character by nothing drops it. */
  lemma {:induction false} ReplaceCharByNothing(s: string, c: char)
    ensures Replace(s, [c], "") == DropChar(s, c)
    decreases |s|
  {
    if Find(s, [c]).None? {
      ContainsChar(s, c);
      DropCharAbsent(s, c);
    } else {
      var i := Find(s, [c]).value;
      var rest := s[i + 1..];
      assert Replace(s, [c], "") == s[..i] + Replace(rest, [c], "") by {
        ReplaceAt(s, [c], "", i);
        assert s[..i] + "" == s[..i];
      }
      ReplaceCharByNothing(rest, c);
      assert DropChar(s, c) == s[..i] + DropChar(rest, c) by {
        OccursChar(s, c, i);
        forall j | 0 <= j < i
          ensures s[..i][j] != c
        {
          OccursChar(s, c, j);
        }
        DropCharAt(s, c, i);
      }
    }
  }

  lemma DropCharAt(s: string, c: char, i: int)
    requires 0 <= i < |s| && s[i] == c && c !in s[..i]
    ensures DropChar(s, c) == s[..i] + DropChar(s[i + 1..], c)
  {
    var rest := s[i + 1..];
    DropCharAbsent(s[..i], c);
    assert s == s[..i] + ([c] + rest);
    DropCharAppend(s[..i], [c] + rest, c);
    assert ([c] + rest)[1..] == rest;
  }

  /** Replace leaves untouched a prefix in which no occurrence starts. */
  lemma ReplaceKeepsPrefix(s: string, pat: string, rep: string, k: int)
    requires |pat| > 0 && 0 <= k <= |s|
    requires forall j :: 0 <= j < k ==> !OccursAt(s, pat, j)
    ensures |Replace(s, pat, rep)| >= k
    ensures Replace(s, pat, rep)[..k] == s[..k]
  {
  }

  /** An occurrence with none before it is the one `Find` reports. */
  lemma FindIs(s: string, t: string, i: nat)
    requires |t| > 0 && OccursAt(s, t, i)
    requires forall j :: 0 <= j < i ==> !OccursAt(s, t, j)
    ensures Find(s, t).Some? && Find(s, t).value == i
  {
  }

  /** Slicing `a + m` inside `a` slices `a`. */
  lemma SliceOfAppend(a: string, m: string, k: int)
    requires 0 <= k <= |a|
    ensures (a + m)[..k] == a[..k] && (a + m)[k..] == a[k..] + m
  {
  }

  lemma Reassociate(a: string, b: string, c: string)
    ensures a + (b + c) == (a + b) + c
  {
  }

  /** The text `Replace` builds when the first occurrence is at `i`. */
  function ReplaceStep(s: string, pat: string, rep: string, i: nat): string
    requires |pat| > 0 && i + |pat| <= |s|
  {
    s[..i] + rep + Replace(s[i + |pat|..], pat, rep)
  }

  lemma ReplaceFirst(s: string, pat: string, rep: string)
    requires |pat| > 0 && Find(s, pat).Some?
    ensures Find(s, pat).value + |pat| <= |s|
    ensures Replace(s, pat, rep) == ReplaceStep(s, pat, rep, Find(s, pat).value)
  {
  }

  lemma ReplaceStepIs(s: string, pat: string, rep: string, i: nat)
    requires |pat| > 0 && i + |pat| <= |s|
    ensures ReplaceStep(s, pat, rep, i) == s[..i] + rep + Replace(s[i + |pat|..], pat, rep)
  {
  }

  /** One step of `Replace` at the first occurrence, found at `i`. */
  lemma ReplaceAt(s: string, pat: string, rep: string, i: nat)
    requires |pat| > 0 && Find(s, pat).Some? && Find(s, pat).value == i
    ensures i + |pat| <= |s|
    ensures Replace(s, pat, rep) == s[..i] + rep + Replace(s[i + |pat|..], pat, rep)
  {
    ReplaceFirst(s, pat, rep);
    ReplaceStepIs(s, pat, rep, i);
  }

  /** The first occurrence in `p + rest` past `p` is the first in `rest`. */
  lemma FindShifted(p: string, rest: string, pat: string, i: nat)
    requires |pat| > 0 && Find(p + rest, pat).Some? && Find(p + rest, pat).value == i && |p| <= i
    ensures Find(rest, pat).Some? && Find(rest, pat).value == i - |p|
  {
    var s := p + rest;
    assert s[|p|..|s|] == rest;
    OccursInSlice(s, pat, |p|, |s|, i - |p|);
    forall j | 0 <= j < i - |p|
      ensures !OccursAt(rest, pat, j)
    {
      OccursInSlice(s, pat, |p|, |s|, j);
    }
    FindIs(rest, pat, i - |p|);
  }

  /** Replacing in text whose leading `p` holds no start of an occurrence
      leaves `p` alone and replaces in the rest. */
  lemma ReplaceSkips(p: string, rest: string, pat: string, rep: string)
    requires |pat| > 0
    requires forall j :: 0 <= j < |p| ==> !OccursAt(p + rest, pat, j)
    ensures Replace(p + rest, pat, rep) == p + Replace(rest, pat, rep)
  {
    var s := p + rest;
    if Find(s, pat).None? {
      assert Replace(s, pat, rep) == s;
      assert s[|p|..] == rest;
      SuffixAvoids(s, pat, |p|);
      assert Replace(rest, pat, rep) == rest;
    } else {
      var i := Find(s, pat).value;
      var i' := i - |p|;
      FindShifted(p, rest, pat, i);
      var tail := Replace(rest[i' + |pat|..], pat, rep);
      var u := s[i + |pat|..];
      assert s[..i] == p + rest[..i'] && u == rest[i' + |pat|..];
      assert Replace(s, pat, rep) == s[..i] + rep + Replace(u, pat, rep) by {
        ReplaceAt(s, pat, rep, i);
      }
      Around(s[..i], p + rest[..i'], rep, Replace(u, pat, rep), tail);
      assert Replace(rest, pat, rep) == rest[..i'] + rep + tail by {
        ReplaceAt(rest, pat, rep, i');
      }
      Reassociate4(p, rest[..i'], rep, tail);
    }
  }

  /** Equal texts around a common middle give equal texts. */
  lemma Around(h: string, h': string, m: string, t: string, t': string)
    requires h == h' && t == t'
    ensures h + m + t == h' + m + t'
  {
  }

  lemma Reassociate4(a: string, b: string, c: string, d: string)
    ensures (a + b) + c + d == a + (b + c + d)
  {
  }

  /** Replacing in `x + b`, where no occurrence reaches into `b`, replaces in
      `x` and keeps `b`. */
  lemma {:induction false} ReplaceKeepsSuffix(x: string, b: string, pat: string, rep: string)
    requires |pat| > 0
    requires forall j :: OccursAt(x + b, pat, j) ==> j + |pat| <= |x|
    ensures Replace(x + b, pat, rep) == Replace(x, pat, rep) + b
    decreases |x|
  {
    var s := x + b;
    if Find(s, pat).None? {
      assert s[0..|x|] == x;
      forall j
        ensures !OccursAt(x, pat, j)
      {
        OccursInSlice(s, pat, 0, |x|, j);
      }
    } else {
      var i := Find(s, pat).value;
      FindInShorter(x, b, pat, i);
      var x' := x[i + |pat|..];
      ReachShift(x, b, pat, i + |pat|);
      ReplaceKeepsSuffix(x', b, pat, rep);
      var tail := Replace(x', pat, rep);
      var u := s[i + |pat|..];
      assert s[..i] == x[..i] && u == x' + b by {
        SliceOfAppend(x, b, i);
        SliceOfAppend(x, b, i + |pat|);
      }
      assert Replace(s, pat, rep) == s[..i] + rep + Replace(u, pat, rep) by {
        ReplaceAt(s, pat, rep, i);
      }
      Around(s[..i], x[..i], rep, Replace(u, pat, rep), tail + b);
      assert Replace(x, pat, rep) == x[..i] + rep + tail by {
        ReplaceAt(x, pat, rep, i);
      }
      Reassociate(x[..i] + rep, tail, b);
    }
  }

  /** A first occurrence in `x + b` that ends inside `x` is the first in `x`. */
  lemma FindInShorter(x: string, b: string, pat: string, i: nat)
    requires |pat| > 0 && Find(x + b, pat).Some? && Find(x + b, pat).value == i
    requires i + |pat| <= |x|
    ensures Find(x, pat).Some? && Find(x, pat).value == i
  {
    var s := x + b;
    assert s[0..|x|] == x;
    OccursInSlice(s, pat, 0, |x|, i);
    forall j | 0 <= j < i
      ensures !OccursAt(x, pat, j)
    {
      OccursInSlice(s, pat, 0, |x|, j);
    }
    FindIs(x, pat, i);
  }

  /** If no occurrence in `x + b` reaches into `b`, neither does one in
      `x[k..] + b`. */
  lemma ReachShift(x: string, b: string, pat: string, k: nat)
    requires k <= |x|
    requires forall j :: OccursAt(x + b, pat, j) ==> j + |pat| <= |x|
    ensures forall j :: OccursAt(x[k..] + b, pat, j) ==> j + |pat| <= |x[k..]|
  {
    var s := x + b;
    assert s[k..|s|] == x[k..] + b;
    forall j | OccursAt(x[k..] + b, pat, j)
      ensures j + |pat| <= |x[k..]|
    {
      OccursInSlice(s, pat, k, |s|, j);
    }
  }

  /** Replacing in `a + x + b`, where no occurrence starts in `a` or reaches
      into `b`, replaces in `x` only. */
  lemma ReplaceInside(a: string, x: string, b: string, pat: string, rep: string)
    requires |pat| > 0
    requires forall j :: 0 <= j < |a| ==> !OccursAt(a + x + b, pat, j)
    requires forall j :: OccursAt(a + x + b, pat, j) ==> j + |pat| <= |a| + |x|
    ensures Replace(a + x + b, pat, rep) == a + Replace(x, pat, rep) + b
  {
    var s := a + x + b;
    assert s == a + (x + b) by {
      Reassociate(a, x, b);
    }
    forall j | OccursAt(x + b, pat, j)
      ensures j + |pat| <= |x|
    {
      OccursInSlice(s, pat, |a|, |s|, j);
      assert s[|a|..|s|] == x + b;
    }
    assert Replace(s, pat, rep) == a + (Replace(x, pat, rep) + b) by {
      ReplaceSkips(a, x + b, pat, rep);
      ReplaceKeepsSuffix(x, b, pat, rep);
    }
    Reassociate(a, Replace(x, pat, rep), b);
  }

  /** An occurrence of `t` that straddles `m` in `a + m + b` shares a
      character with `m`. */
  lemma StraddleShares(a: string, m: string, b: string, t: string, j: int)
    ensures |t| > 0 && |m| > 0 && OccursAt(a + m + b, t, j) && |a| < j + |t| && j < |a| + |m| ==>
              exists x :: 0 <= x < |m| && m[x] in t
  {
    var s := a + m + b;
    if |t| > 0 && |m| > 0 && OccursAt(s, t, j) && |a| < j + |t| && j < |a| + |m| {
      var x := if j < |a| then |a| else j;
      assert s[j..j + |t|][x - j] == s[x];
      assert s[x] == t[x - j];
      assert s[x] == m[x - |a|];
    }
  }

  /** An occurrence of `t` in `a + m + b` lies in `a` or in `b` when no
      character of `m` occurs in `t`. */
  lemma OccursAround(a: string, m: string, b: string, t: string, j: int)
    requires |t| > 0 && |m| > 0 && forall c :: c in m ==> c !in t
    ensures OccursAt(a + m + b, t, j) ==>
              OccursAt(a, t, j) || OccursAt(b, t, j - |a| - |m|)
  {
    var s := a + m + b;
    StraddleShares(a, m, b, t, j);
    OccursInSlice(s, t, 0, |a|, j);
    assert s[..|a|] == a;
    OccursInSlice(s, t, |a| + |m|, |s|, j - |a| - |m|);
    assert s[|a| + |m|..] == b;
  }

  /** A join avoids `t` when its pieces do and the separator shares no
      character with `t`. */
  lemma {:induction false} JoinAvoids(parts: seq<string>, sep: string, t: string)
    requires |t| > 0 && |sep| > 0 && forall c :: c in sep ==> c !in t
    requires forall k :: 0 <= k < |parts| ==> !Contains(parts[k], t)
    ensures !Contains(Join(parts, sep), t)
    decreases |parts|
  {
    if |parts| > 1 {
      JoinAvoids(parts[1..], sep, t);
      forall j
        ensures !OccursAt(Join(parts, sep), t, j)
      {
        OccursAround(parts[0], sep, Join(parts[1..], sep), t, j);
      }
    }
  }

  // ---------------------------------------------------------------------
  // ASCII case mapping and whitespace

  function LowerChar(c: char): char {
    if 'A' <= c <= 'Z' then (c as int + 32) as char else c
  }

  function UpperChar(c: char): char {
    if 'a' <= c <= 'z' then (c as int - 32) as char else c
  }

  /** `s.lower()` on the ASCII letters. */
  function Lower(s: string): (r: string)
    ensures |r| == |s|
  {
    seq(|s|, i requires 0 <= i < |s| => LowerChar(s[i]))
  }

  /** `s.upper()` on the ASCII letters. */
  function Upper(s: string): (r: string)
    ensures |r| == |s|
  {
    seq(|s|, i requires 0 <= i < |s| => UpperChar(s[i]))
  }

  lemma LowerAppend(a: string, b: string)
    ensures Lower(a + b) == Lower(a) + Lower(b)
  {
  }

  /** `str.isspace()` on the ASCII range. */
  predicate IsSpace(c: char) {
    c == ' ' || c == '\t' || c == '\n' || c == '\r' || c == '\U{B}' || c == '\U{C}'
    || c == '\U{1C}' || c == '\U{1D}' || c == '\U{1E}' || c == '\U{1F}'
  }

  /** `s.lstrip()`. */
  function LStrip(s: string): (r: string)
    ensures |r| <= |s| && r == s[|s| - |r|..]
    ensures r == "" || !IsSpace(r[0])
    ensures forall i :: 0 <= i < |s| - |r| ==> IsSpace(s[i])
  {
    if |s| > 0 && IsSpace(s[0]) then LStrip(s[1..]) else s
  }

  /** `s.rstrip()`. */
  function RStrip(s: string): (r: string)
    ensures |r| <= |s| && r == s[..|r|]
    ensures r == "" || !IsSpace(r[|r| - 1])
    ensures forall i :: |r| <= i < |s| ==> IsSpace(s[i])
  {
    if |s| > 0 && IsSpace(s[|s| - 1]) then RStrip(s[..|s| - 1]) else s
  }

  /** `s.strip()`. */
  function Strip(s: string): string {
    RStrip(LStrip(s))
  }

  /** `w.capitalize()`: first character upper case, the rest lower case. */
  function Capitalize(w: string): (r: string)
    ensures |r| == |w|
  {
    if w == [] then [] else [UpperChar(w[0])] + Lower(w[1..])
  }

  function CapitalizeAll(ws: seq<string>): (r: seq<string>)
    ensures |r| == |ws|
    ensures forall k :: 0 <= k < |ws| ==> r[k] == Capitalize(ws[k])
  {
    seq(|ws|, k requires 0 <= k < |ws| => Capitalize(ws[k]))
  }

  /** `string.capwords(s, ' ')`: capitalize every space-separated word,
      keeping every space. */
  function CapWords(s: string): string {
    Join(CapitalizeAll(Split(s, " ")), " ")
  }

  lemma LowerCapitalize(w: string)
    ensures Lower(Capitalize(w)) == Lower(w)
  {
    if w != [] {
      assert w == [w[0]] + w[1..];
      LowerAppend([w[0]], w[1..]);
      LowerAppend([UpperChar(w[0])], Lower(w[1..]));
    }
  }

  lemma {:induction false} LowerJoinCapitalized(ws: seq<string>)
    ensures Lower(Join(CapitalizeAll(ws), " ")) == Lower(Join(ws, " "))
    decreases |ws|
  {
    if |ws| == 1 {
      LowerCapitalize(ws[0]);
    } else if |ws| > 1 {
      var cs := CapitalizeAll(ws);
      assert cs[1..] == CapitalizeAll(ws[1..]);
      LowerJoinCapitalized(ws[1..]);
      LowerCapitalize(ws[0]);
      LowerAppend(cs[0] + " ", Join(cs[1..], " "));
      LowerAppend(cs[0], " ");
      LowerAppend(ws[0] + " ", Join(ws[1..], " "));
      LowerAppend(ws[0], " ");
    }
  }

  /** `capwords` changes letter case only: it keeps every character up to case. */
  lemma CapWordsOnlyChangesCase(s: string)
    ensures |CapWords(s)| == |s|
    ensures Lower(CapWords(s)) == Lower(s)
  {
    LowerJoinCapitalized(Split(s, " "));
  }

  // ---------------------------------------------------------------------
  // Python's string ordering: lexicographic by code point, a proper prefix first.

  predicate StrLe(a: string, b: string)
    decreases |a|
  {
    |a| == 0 || (|b| > 0 && (a[0] < b[0] || (a[0] == b[0] && StrLe(a[1..], b[1..]))))
  }

  lemma {:induction false} StrLeRefl(a: string)
    ensures StrLe(a, a)
    decreases |a|
  {
    if |a| > 0 {
      StrLeRefl(a[1..]);
    }
  }

  lemma {:induction false} StrLeTotal(a: string, b: string)
    ensures StrLe(a, b) || StrLe(b, a)
    decreases |a|
  {
    if |a| > 0 && |b| > 0 && a[0] == b[0] {
      StrLeTotal(a[1..], b[1..]);
    }
  }

  lemma {:induction false} StrLeTrans(a: string, b: string, c: string)
    requires StrLe(a, b) && StrLe(b, c)
    ensures StrLe(a, c)
    decreases |a|
  {
    if |a| > 0 && a[0] == b[0] && b[0] == c[0] {
      StrLeTrans(a[1..], b[1..], c[1..]);
    }
  }

  lemma {:induction false} StrLeAntisym(a: string, b: string)
    requires StrLe(a, b) && StrLe(b, a)
    ensures a == b
    decreases |a|
  {
    if |a| > 0 {
      StrLeAntisym(a[1..], b[1..]);
      assert a == [a[0]] + a[1..] && b == [b[0]] + b[1..];
    }
  }
}
