/** The layout store built by `layouts()` in `src/main.rs`: every file under
    `./layouts/` is stored under an id made from its path, a later file
    with the same id replacing an earlier one. Walking the directory and
    reading the files is not modelled: the store is built from the list of
    (path, contents) pairs they produce. */
module LayoutStore {
  import opened Wrappers
  import opened Errors
  import opened Text

  const LayoutDir := "./layouts/"
  const LayoutSuffix := ".layout.html"

  datatype LayoutFile = LayoutFile(path: string, contents: string)

  /** The id of a layout at `path`: the first `|LayoutDir|` characters cut
      off (`replace_range`), then every occurrence of the suffix deleted
      (`replace`), wherever it appears. */
  function Id(path: string): string
    requires |path| >= |LayoutDir|
  {
    DeleteAll(path[|LayoutDir|..], LayoutSuffix)
  }

  /** The id of a layout, or the panic of cutting a range longer than the
      path. */
  function LayoutId(path: string): (r: Result<string, Error>)
    ensures r.Success? <==> |path| >= |LayoutDir|
    ensures r.Success? ==> r.value == Id(path)
    ensures r.Failure? ==> r.error == LayoutPathTooShort(path)
  {
    if |path| < |LayoutDir| then Failure(LayoutPathTooShort(path))
    else Success(Id(path))
  }

  /** The store, built file by file; the first bad path is the error. */
  function LoadLayouts(files: seq<LayoutFile>): Result<map<string, string>, Error>
    decreases |files|
  {
    if |files| == 0 then Success(map[])
    else
      var last := files[|files| - 1];
      var store :- LoadLayouts(files[..|files| - 1]);
      var id :- LayoutId(last.path);
      Success(store[id := last.contents])
  }

  /** Every path is long enough to cut the directory off. */
  predicate AllUnder(files: seq<LayoutFile>) {
    forall k :: 0 <= k < |files| ==> |files[k].path| >= |LayoutDir|
  }

  /** `k` is the last file with its id. */
  predicate LastWithId(files: seq<LayoutFile>, k: nat)
    requires AllUnder(files) && k < |files|
  {
    forall j :: k < j < |files| ==> Id(files[j].path) != Id(files[k].path)
  }

  /** The store without the last file. */
  lemma LoadSnoc(files: seq<LayoutFile>)
    requires |files| > 0 && AllUnder(files)
    ensures AllUnder(files[..|files| - 1])
    ensures LoadLayouts(files[..|files| - 1]).Success? ==>
      LoadLayouts(files) == Success(LoadLayouts(files[..|files| - 1]).value[Id(files[|files| - 1].path) := files[|files| - 1].contents])
  {
    var init := files[..|files| - 1];
    assert forall k :: 0 <= k < |init| ==> init[k] == files[k];
  }

  /** Loading succeeds exactly when every path is long enough. */
  lemma {:induction false} LoadLayoutsSucceeds(files: seq<LayoutFile>)
    ensures LoadLayouts(files).Success? <==> AllUnder(files)
    decreases |files|
  {
    if |files| > 0 {
      var init := files[..|files| - 1];
      LoadLayoutsSucceeds(init);
      assert forall k :: 0 <= k < |init| ==> init[k] == files[k];
      if AllUnder(init) && |files[|files| - 1].path| >= |LayoutDir| {
        assert AllUnder(files) by {
          forall k | 0 <= k < |files| ensures |files[k].path| >= |LayoutDir| {
            if k < |init| { assert files[k] == init[k]; }
          }
        }
      }
    }
  }

  /** The ids in the store are exactly those of the files. */
  lemma {:induction false} LoadLayoutsKeys(files: seq<LayoutFile>)
    requires AllUnder(files)
    ensures LoadLayouts(files).Success?
    ensures LoadLayouts(files).value.Keys == (set k | 0 <= k < |files| :: Id(files[k].path))
    decreases |files|
  {
    LoadLayoutsSucceeds(files);
    if |files| > 0 {
      var n := |files| - 1;
      var init := files[..n];
      LoadSnoc(files);
      LoadLayoutsKeys(init);
      IdsSnoc(files, init);
    }
  }

  /** The ids of all files are those of all but the last, and the last's. */
  lemma IdsSnoc(files: seq<LayoutFile>, init: seq<LayoutFile>)
    requires |files| > 0 && AllUnder(files) && init == files[..|files| - 1]
    ensures AllUnder(init)
    ensures (set k | 0 <= k < |files| :: Id(files[k].path))
      == (set k | 0 <= k < |init| :: Id(init[k].path)) + {Id(files[|files| - 1].path)}
  {
    var n := |files| - 1;
    assert forall k :: 0 <= k < n ==> init[k] == files[k];
    var id := Id(files[n].path);
    var ids := set k | 0 <= k < |files| :: Id(files[k].path);
    var initIds := set k | 0 <= k < n :: Id(init[k].path);
    forall x | x in ids ensures x in initIds + {id} {
      var k :| 0 <= k < |files| && Id(files[k].path) == x;
      if k < n { assert init[k] == files[k]; }
    }
    forall x | x in initIds ensures x in ids {
      var k :| 0 <= k < n && Id(init[k].path) == x;
      assert init[k] == files[k];
    }
  }

  /** Each id holds the contents of the last file with that id. */
  lemma {:induction false} LoadLayoutsLastWins(files: seq<LayoutFile>, k: nat)
    requires AllUnder(files) && k < |files| && LastWithId(files, k)
    ensures LoadLayouts(files).Success?
    ensures Id(files[k].path) in LoadLayouts(files).value
    ensures LoadLayouts(files).value[Id(files[k].path)] == files[k].contents
    decreases |files|
  {
    LoadLayoutsSucceeds(files);
    var n := |files| - 1;
    var init := files[..n];
    LoadSnoc(files);
    LoadLayoutsSucceeds(init);
    if k < n {
      assert init[k] == files[k];
      assert LastWithId(init, k) by {
        forall j | k < j < |init| ensures Id(init[j].path) != Id(init[k].path) {
          assert init[j] == files[j];
        }
      }
      LoadLayoutsLastWins(init, k);
    }
  }

  /** The path a layout with id `name` is stored at. */
  function LayoutPath(name: string): string {
    LayoutDir + name + LayoutSuffix
  }

  /** The suffix does not start anywhere inside `name` when the suffix is
      appended to it. */
  predicate NoSuffixWithin(name: string) {
    forall i :: 0 <= i < |name| ==> !StartsWith((name + LayoutSuffix)[i..], LayoutSuffix)
  }

  /** The id of a layout's path is its name, provided the suffix does not
      also occur within the name. */
  lemma IdOfLayoutPath(name: string)
    requires NoSuffixWithin(name)
    ensures LayoutId(LayoutPath(name)) == Success(name)
  {
    var path := LayoutPath(name);
    assert path[|LayoutDir|..] == name + LayoutSuffix;
    DeleteFinal(name, LayoutSuffix);
  }

  /** Deleting a pattern that starts nowhere but at the very end of a
      string leaves what comes before it. */
  lemma {:induction false} DeleteFinal(n: string, p: string)
    requires |p| > 0
    requires forall i :: 0 <= i < |n| ==> !StartsWith((n + p)[i..], p)
    ensures DeleteAll(n + p, p) == n
    decreases |n|
  {
    if |n| == 0 {
      assert n + p == p && StartsWith(p, p);
      assert p[|p|..] == "";
    } else {
      assert (n + p)[0..] == n + p;
      assert (n + p)[1..] == n[1..] + p;
      forall i | 0 <= i < |n[1..]|
        ensures !StartsWith((n[1..] + p)[i..], p)
      {
        assert (n[1..] + p)[i..] == (n + p)[i + 1..];
      }
      DeleteFinal(n[1..], p);
      assert n == [n[0]] + n[1..];
    }
  }

  /** A later layout with the same id replaces an earlier one. */
  lemma LaterReplaces(a: LayoutFile, b: LayoutFile)
    requires |a.path| >= |LayoutDir| && |b.path| >= |LayoutDir| && Id(a.path) == Id(b.path)
    ensures LoadLayouts([a, b]) == Success(map[Id(a.path) := b.contents])
  {
    var id := Id(a.path);
    assert [a, b][..1] == [a];
    assert [a][..0] == [];
    assert LoadLayouts([a]) == Success(map[id := a.contents]);
    assert map[id := a.contents][id := b.contents] == map[id := b.contents];
  }
}
