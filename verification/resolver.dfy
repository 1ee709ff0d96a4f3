/**
 * The compatibility-manifest resolver: the bundled default manifest plus every
 * manifest found in a subdirectory of the "compat" folder, ordered by
 * decreasing minimum build code with a stable sort.
 */
module ManifestResolver {
  import opened Entity

  // ---------------------------------------------------------------------
  // Collecting
  // ---------------------------------------------------------------------

  /**
   * The manifests that exist and parsed, in discovery order: exactly those
   * `m` with `Some(m)` in `found`. An entry of `found` is None when the
   * subdirectory has no manifest file or its JSON did not parse.
   */
  function Present(found: seq<Option<ApkFilesManifest>>): (r: seq<ApkFilesManifest>)
    ensures |r| <= |found|
    ensures forall m :: m in r <==> Some(m) in found
  {
    if found == [] then []
    else
      var init := found[..|found| - 1];
      var last := found[|found| - 1];
      assert found == init + [last];
      Present(init) + (if last.Some? then [last.value] else [])
  }

  /** Every parsed subdirectory contributes exactly one copy of its manifest. */
  lemma {:induction false} PresentCounts(found: seq<Option<ApkFilesManifest>>, m: ApkFilesManifest)
    ensures multiset(Present(found))[m] == multiset(found)[Some(m)]
  {
    if found != [] {
      var init, last := found[..|found| - 1], found[|found| - 1];
      assert found == init + [last];
      PresentCounts(init, m);
    }
  }

  /** The list the resolver sorts: the bundled default first, then the discovered ones. */
  function Collected(bundled: ApkFilesManifest, found: seq<Option<ApkFilesManifest>>): seq<ApkFilesManifest>
  {
    [bundled] + Present(found)
  }

  // ---------------------------------------------------------------------
  // Ordering
  // ---------------------------------------------------------------------

  /** Ordered non-increasing by minimum build code. */
  predicate NonIncreasing(s: seq<ApkFilesManifest>)
  {
    forall i, j :: 0 <= i < j < |s| ==> s[i].minBuildCode >= s[j].minBuildCode
  }

  /** The manifests of `s` whose minimum build code is `code`, in their order in `s`. */
  function WithBuildCode(s: seq<ApkFilesManifest>, code: int): seq<ApkFilesManifest>
  {
    if s == [] then []
    else (if s[0].minBuildCode == code then [s[0]] else []) + WithBuildCode(s[1..], code)
  }

  /**
   * `t` keeps, for every build code, the manifests of `s` with that code in
   * the same relative order: what a stable sort by build code guarantees.
   */
  ghost predicate SameOrderPerBuildCode(s: seq<ApkFilesManifest>, t: seq<ApkFilesManifest>)
  {
    forall code :: WithBuildCode(s, code) == WithBuildCode(t, code)
  }

  /** Inserts `m` into `s` after every manifest whose build code is at least `m`'s. */
  function InsertByBuildCode(m: ApkFilesManifest, s: seq<ApkFilesManifest>): seq<ApkFilesManifest>
  {
    if s == [] || s[0].minBuildCode < m.minBuildCode then [m] + s
    else [s[0]] + InsertByBuildCode(m, s[1..])
  }

  /**
   * Reference definition of the resolver's order: insertion sort, taking the
   * manifests left to right, descending by build code and stable.
   */
  function StableSortByBuildCode(s: seq<ApkFilesManifest>): seq<ApkFilesManifest>
  {
    if s == [] then []
    else InsertByBuildCode(s[|s| - 1], StableSortByBuildCode(s[..|s| - 1]))
  }

  /** The manifests picked for `code` are exactly the members of `s` with that build code. */
  lemma {:induction false} WithBuildCodeMembers(s: seq<ApkFilesManifest>, code: int, m: ApkFilesManifest)
    ensures m in WithBuildCode(s, code) <==> m in s && m.minBuildCode == code
  {
    if s != [] {
      WithBuildCodeMembers(s[1..], code, m);
      assert s == [s[0]] + s[1..];
    }
  }

  /** Picking the manifests with build code `code` distributes over concatenation. */
  lemma {:induction false} WithBuildCodeAppend(a: seq<ApkFilesManifest>, b: seq<ApkFilesManifest>, code: int)
    ensures WithBuildCode(a + b, code) == WithBuildCode(a, code) + WithBuildCode(b, code)
  {
    if a == [] {
      assert a + b == b;
    } else {
      var head := if a[0].minBuildCode == code then [a[0]] else [];
      assert (a + b)[0] == a[0];
      assert (a + b)[1..] == a[1..] + b;
      WithBuildCodeAppend(a[1..], b, code);
      calc {
        WithBuildCode(a + b, code);
        head + WithBuildCode(a[1..] + b, code);
        head + (WithBuildCode(a[1..], code) + WithBuildCode(b, code));
        (head + WithBuildCode(a[1..], code)) + WithBuildCode(b, code);
      }
    }
  }

  /** In a non-increasing list that starts below `code`, nothing has build code `code`. */
  lemma {:induction false} NoneWithHigherCode(s: seq<ApkFilesManifest>, code: int)
    requires NonIncreasing(s)
    requires s != [] && s[0].minBuildCode < code
    ensures WithBuildCode(s, code) == []
  {
    if |s| > 1 {
      assert s[1].minBuildCode <= s[0].minBuildCode;
      NoneWithHigherCode(s[1..], code);
    }
  }

  /** A manifest followed by a non-increasing list of manifests with no higher build code is non-increasing. */
  lemma ConsNonIncreasing(x: ApkFilesManifest, t: seq<ApkFilesManifest>)
    requires NonIncreasing(t)
    requires forall y :: y in t ==> y.minBuildCode <= x.minBuildCode
    ensures NonIncreasing([x] + t)
  {
  }

  /** Inserting adds `m` and nothing else. */
  lemma {:induction false} InsertByBuildCodeMembers(m: ApkFilesManifest, s: seq<ApkFilesManifest>)
    ensures multiset(InsertByBuildCode(m, s)) == multiset(s) + multiset{m}
    ensures forall x :: x in InsertByBuildCode(m, s) <==> x == m || x in s
  {
    if s != [] && s[0].minBuildCode >= m.minBuildCode {
      InsertByBuildCodeMembers(m, s[1..]);
      assert s == [s[0]] + s[1..];
    }
  }

  /** Inserting into a non-increasing list keeps it non-increasing. */
  lemma {:induction false} InsertByBuildCodeOrdered(m: ApkFilesManifest, s: seq<ApkFilesManifest>)
    requires NonIncreasing(s)
    ensures NonIncreasing(InsertByBuildCode(m, s))
  {
    if s == [] || s[0].minBuildCode < m.minBuildCode {
      forall y | y in s ensures y.minBuildCode <= m.minBuildCode {
        var k :| 0 <= k < |s| && s[k] == y;
        assert s[k].minBuildCode <= s[0].minBuildCode;
      }
      ConsNonIncreasing(m, s);
    } else {
      var rest := InsertByBuildCode(m, s[1..]);
      assert NonIncreasing(s[1..]);
      InsertByBuildCodeOrdered(m, s[1..]);
      InsertByBuildCodeMembers(m, s[1..]);
      forall y | y in rest ensures y.minBuildCode <= s[0].minBuildCode {
        if y != m {
          var k :| 0 <= k < |s[1..]| && s[1..][k] == y;
          assert s[k + 1] == y;
        }
      }
      ConsNonIncreasing(s[0], rest);
    }
  }

  /** Inserting puts `m` after every manifest with its build code and leaves the other codes alone. */
  lemma {:induction false} InsertByBuildCodeStable(m: ApkFilesManifest, s: seq<ApkFilesManifest>, code: int)
    requires NonIncreasing(s)
    ensures WithBuildCode(InsertByBuildCode(m, s), code)
            == WithBuildCode(s, code) + (if m.minBuildCode == code then [m] else [])
  {
    var r := InsertByBuildCode(m, s);
    if s == [] || s[0].minBuildCode < m.minBuildCode {
      assert r[0] == m && r[1..] == s;
      if s != [] && code == m.minBuildCode {
        NoneWithHigherCode(s, code);
      }
    } else {
      var rest := InsertByBuildCode(m, s[1..]);
      assert NonIncreasing(s[1..]);
      InsertByBuildCodeStable(m, s[1..], code);
      assert r[0] == s[0] && r[1..] == rest;
    }
  }

  /**
   * The reference sort is correct: its result is ordered non-increasing by
   * build code, is a permutation of its input, and keeps the input order of
   * manifests sharing a build code (stability).
   */
  lemma {:induction false} StableSortByBuildCodeCorrect(s: seq<ApkFilesManifest>)
    ensures NonIncreasing(StableSortByBuildCode(s))
    ensures multiset(StableSortByBuildCode(s)) == multiset(s)
    ensures SameOrderPerBuildCode(StableSortByBuildCode(s), s)
  {
    if s != [] {
      var init, last := s[..|s| - 1], s[|s| - 1];
      var sortedInit := StableSortByBuildCode(init);
      StableSortByBuildCodeCorrect(init);
      assert StableSortByBuildCode(s) == InsertByBuildCode(last, sortedInit);
      InsertByBuildCodeOrdered(last, sortedInit);
      InsertByBuildCodeMembers(last, sortedInit);
      assert s == init + [last];
      forall code
        ensures WithBuildCode(StableSortByBuildCode(s), code) == WithBuildCode(s, code)
      {
        SortLastKeepsOrder(s, code);
      }
    }
  }

  /** Inserting the last manifest into the sorted rest keeps the order of the manifests with build code `code`. */
  lemma SortLastKeepsOrder(s: seq<ApkFilesManifest>, code: int)
    requires s != []
    requires NonIncreasing(StableSortByBuildCode(s[..|s| - 1]))
    requires WithBuildCode(StableSortByBuildCode(s[..|s| - 1]), code) == WithBuildCode(s[..|s| - 1], code)
    ensures WithBuildCode(StableSortByBuildCode(s), code) == WithBuildCode(s, code)
  {
    var init, last := s[..|s| - 1], s[|s| - 1];
    InsertByBuildCodeStable(last, StableSortByBuildCode(init), code);
    WithBuildCodeAppend(init, [last], code);
    assert s == init + [last];
  }

  /**
   * Two lists that are both ordered non-increasing by build code and agree on
   * the order of every build code's manifests are the same list.
   */
  lemma {:induction false} OrderedIsUnique(r1: seq<ApkFilesManifest>, r2: seq<ApkFilesManifest>)
    requires NonIncreasing(r1) && NonIncreasing(r2)
    requires SameOrderPerBuildCode(r1, r2)
    ensures r1 == r2
  {
    if r1 == [] || r2 == [] {
      if r1 != [] {
        WithBuildCodeMembers(r1, r1[0].minBuildCode, r1[0]);
      } else if r2 != [] {
        WithBuildCodeMembers(r2, r2[0].minBuildCode, r2[0]);
      }
    } else {
      var k1, k2 := r1[0].minBuildCode, r2[0].minBuildCode;
      WithBuildCodeMembers(r2, k2, r2[0]);
      WithBuildCodeMembers(r1, k2, r2[0]);
      assert WithBuildCode(r1, k2) == WithBuildCode(r2, k2);
      WithBuildCodeMembers(r1, k1, r1[0]);
      WithBuildCodeMembers(r2, k1, r1[0]);
      assert WithBuildCode(r1, k1) == WithBuildCode(r2, k1);
      assert k1 == k2;
      assert WithBuildCode(r1, k1) == [r1[0]] + WithBuildCode(r1[1..], k1);
      assert WithBuildCode(r2, k1) == [r2[0]] + WithBuildCode(r2[1..], k1);
      assert r1[0] == WithBuildCode(r1, k1)[0];
      assert r2[0] == WithBuildCode(r2, k1)[0];
      assert r1[0] == r2[0];
      forall code ensures WithBuildCode(r1[1..], code) == WithBuildCode(r2[1..], code) {
        var w1, w2 := WithBuildCode(r1, code), WithBuildCode(r2, code);
        assert w1 == w2;
        assert w1 == (if k1 == code then [r1[0]] else []) + WithBuildCode(r1[1..], code);
        assert w2 == (if k1 == code then [r2[0]] else []) + WithBuildCode(r2[1..], code);
        if code == k1 {
          assert WithBuildCode(r1[1..], code) == w1[1..];
          assert WithBuildCode(r2[1..], code) == w2[1..];
        } else {
          assert [] + WithBuildCode(r1[1..], code) == WithBuildCode(r1[1..], code);
          assert [] + WithBuildCode(r2[1..], code) == WithBuildCode(r2[1..], code);
        }
      }
      OrderedIsUnique(r1[1..], r2[1..]);
      assert r1 == [r1[0]] + r1[1..];
      assert r2 == [r2[0]] + r2[1..];
    }
  }

  /**
   * Any stable descending sort gives the reference result: a list ordered
   * non-increasing by build code that keeps every build code's manifests in
   * input order is StableSortByBuildCode of the input. So the result does not
   * depend on which stable algorithm sorts the list.
   */
  lemma StableSortIsDetermined(s: seq<ApkFilesManifest>, r: seq<ApkFilesManifest>)
    requires NonIncreasing(r)
    requires SameOrderPerBuildCode(r, s)
    ensures r == StableSortByBuildCode(s)
  {
    StableSortByBuildCodeCorrect(s);
    OrderedIsUnique(r, StableSortByBuildCode(s));
  }

  /** Build codes [5, 20, 1] (the bundled default at 5) come out as [20, 5, 1]. */
  lemma OrderingExample(d: ApkFilesManifest, a: ApkFilesManifest, b: ApkFilesManifest)
    requires d.minBuildCode == 5 && a.minBuildCode == 20 && b.minBuildCode == 1
    ensures StableSortByBuildCode([d, a, b]) == [a, d, b]
  {
    assert [d, a, b][..2] == [d, a];
    assert [d, a][..1] == [d];
    assert StableSortByBuildCode([d]) == [d];
    assert StableSortByBuildCode([d, a]) == InsertByBuildCode(a, [d]) == [a, d];
    assert InsertByBuildCode(b, [d]) == [d, b];
    assert InsertByBuildCode(b, [a, d]) == [a] + InsertByBuildCode(b, [a, d][1..]);
    assert [a, d][1..] == [d];
  }

  // ---------------------------------------------------------------------
  // The in-place sort and the resolver
  // ---------------------------------------------------------------------

  /** `InsertByBuildCode` of `m` lands it at the first manifest with a smaller build code. */
  lemma {:induction false} InsertByBuildCodeAt(m: ApkFilesManifest, s: seq<ApkFilesManifest>, j: nat)
    requires j <= |s|
    requires forall p :: 0 <= p < j ==> s[p].minBuildCode >= m.minBuildCode
    requires forall p :: j <= p < |s| ==> s[p].minBuildCode < m.minBuildCode
    ensures InsertByBuildCode(m, s) == s[..j] + [m] + s[j..]
  {
    if j > 0 {
      InsertByBuildCodeAt(m, s[1..], j - 1);
      assert s[1..][..j - 1] == s[1..j];
      assert s[1..][j - 1..] == s[j..];
      assert s[..j] == [s[0]] + s[1..j];
    }
  }

  /**
   * What the shifting loop leaves in the array is the insertion: the prefix
   * before `j` is unchanged, `m` sits at `j`, and the rest moved up by one.
   */
  lemma ShiftedIsInsert(m: ApkFilesManifest, s: seq<ApkFilesManifest>, j: nat, r: seq<ApkFilesManifest>)
    requires NonIncreasing(s)
    requires j <= |s| && |r| == |s| + 1
    requires j > 0 ==> s[j - 1].minBuildCode >= m.minBuildCode
    requires forall p :: j <= p < |s| ==> s[p].minBuildCode < m.minBuildCode
    requires forall p :: 0 <= p < j ==> r[p] == s[p]
    requires r[j] == m
    requires forall p :: j < p < |r| ==> r[p] == s[p - 1]
    ensures r == InsertByBuildCode(m, s)
  {
    forall p | 0 <= p < j ensures s[p].minBuildCode >= m.minBuildCode {
      assert s[p].minBuildCode >= s[j - 1].minBuildCode;
    }
    InsertByBuildCodeAt(m, s, j);
    assert r == s[..j] + [m] + s[j..];
  }

  /**
   * One insertion-sort step on `a`: `a[..i]` is sorted, and `a[i]` is moved
   * left past the manifests with a smaller build code.
   */
  method InsertStep(a: array<ApkFilesManifest>, i: nat)
    requires i < a.Length
    requires NonIncreasing(a[..i])
    modifies a
    ensures a[..i + 1] == InsertByBuildCode(old(a[i]), old(a[..i]))
    ensures a[i + 1..] == old(a[i + 1..])
  {
    ghost var s := a[..i];
    ghost var tail := a[i + 1..];
    var m := a[i];
    var j := i;
    while j > 0 && a[j - 1].minBuildCode < m.minBuildCode
      invariant 0 <= j <= i
      invariant forall p :: 0 <= p < j ==> a[p] == s[p]
      invariant forall p :: j < p <= i ==> a[p] == s[p - 1]
      invariant a[i + 1..] == tail
      invariant forall p :: j <= p < i ==> s[p].minBuildCode < m.minBuildCode
    {
      a[j] := a[j - 1];
      j := j - 1;
    }
    a[j] := m;
    ShiftedIsInsert(m, s, j, a[..i + 1]);
  }

  /** Sorts `a` in place, descending by build code and stable. */
  method SortInPlace(a: array<ApkFilesManifest>)
    modifies a
    ensures a[..] == StableSortByBuildCode(old(a[..]))
  {
    ghost var s := a[..];
    var i := 0;
    while i < a.Length
      invariant 0 <= i <= a.Length
      invariant a[..i] == StableSortByBuildCode(s[..i])
      invariant a[i..] == s[i..]
    {
      StableSortByBuildCodeCorrect(s[..i]);
      assert a[i] == s[i] && a[i + 1..] == s[i + 1..];
      InsertStep(a, i);
      assert s[..i + 1][..i] == s[..i];
      i := i + 1;
    }
    assert a[..] == a[..i];
    assert s == s[..i];
  }

  /**
   * Scans for compatibility packages: the bundled default manifest, then the
   * manifest of each compat subdirectory in listing order when it exists and
   * parsed, sorted in place by decreasing minimum build code.
   */
  method FindAllApkFileManifest(bundled: ApkFilesManifest, compatDirs: seq<Option<ApkFilesManifest>>)
    returns (r: seq<ApkFilesManifest>)
    ensures r == StableSortByBuildCode(Collected(bundled, compatDirs))
    ensures NonIncreasing(r)
    ensures multiset(r) == multiset(Collected(bundled, compatDirs))
    ensures forall m :: m in r <==> m == bundled || Some(m) in compatDirs
    ensures SameOrderPerBuildCode(r, Collected(bundled, compatDirs))
    ensures WithBuildCode(r, bundled.minBuildCode) != []
    ensures WithBuildCode(r, bundled.minBuildCode)[0] == bundled
  {
    var list := [bundled];
    var i := 0;
    while i < |compatDirs|
      invariant 0 <= i <= |compatDirs|
      invariant list == [bundled] + Present(compatDirs[..i])
    {
      var dir := compatDirs[i];
      assert compatDirs[..i + 1][..i] == compatDirs[..i];
      if dir.Some? {
        list := list + [dir.value];
      }
      i := i + 1;
    }
    assert compatDirs[..i] == compatDirs;
    var a := new ApkFilesManifest[|list|](k requires 0 <= k < |list| => list[k]);
    assert a[..] == list;
    SortInPlace(a);
    r := a[..];

    var all := Collected(bundled, compatDirs);
    StableSortByBuildCodeCorrect(all);
    forall m ensures m in r <==> m == bundled || Some(m) in compatDirs {
      assert m in r <==> m in multiset(all);
    }
    assert WithBuildCode(r, bundled.minBuildCode) == WithBuildCode(all, bundled.minBuildCode);
    assert all[1..] == Present(compatDirs);
  }
}
