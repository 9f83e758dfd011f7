/** The config cascade: layers folded into one tree, with two side maps beside it. */
module ConfigCascade {
  import opened Common
  import opened KeyPath

  /** A parsed config value: a table, or anything else. */
  datatype Tree = Leaf(v: string) | Table(entries: map<string, Tree>)

  type Path = seq<string>

  datatype Layer = Layer(file: string, tree: map<string, Tree>)

  // ----------------------------------------------------------------- reading trees

  /** What a table holds at a path. */
  function At(t: map<string, Tree>, p: Path): Option<Tree>
    decreases |p|
  {
    if p == [] || p[0] !in t then None
    else if |p| == 1 then Some(t[p[0]])
    else if t[p[0]].Table? then At(t[p[0]].entries, p[1..])
    else None
  }

  ghost predicate HasLeaf(t: map<string, Tree>, p: Path) { At(t, p).Some? && At(t, p).value.Leaf? }

  /** t puts a leaf on a proper prefix of p, or a leaf or a table at p itself: a farther
      layer's leaf at p does not survive it. */
  predicate Shadows(t: map<string, Tree>, p: Path)
    decreases |p|
  {
    if p == [] || p[0] !in t then false
    else if |p| == 1 || t[p[0]].Leaf? then true
    else Shadows(t[p[0]].entries, p[1..])
  }

  /** Shadows, read off the whole path at once. */
  lemma {:induction false} ShadowsMeans(t: map<string, Tree>, p: Path)
    requires p != []
    ensures Shadows(t, p) <==> At(t, p).Some? || exists n :: 0 < n < |p| && HasLeaf(t, p[..n])
    decreases |p|
  {
    assert forall n | 0 < n < |p| :: p[..n][0] == p[0];
    if p[0] in t && |p| > 1 && t[p[0]].Table? {
      var inner, rest := t[p[0]].entries, p[1..];
      ShadowsMeans(inner, rest);
      forall n | 0 < n < |rest| ensures HasLeaf(inner, rest[..n]) <==> HasLeaf(t, p[..n + 1]) {
        assert p[..n + 1][1..] == rest[..n];
      }
      if n :| 0 < n < |p| && HasLeaf(t, p[..n]) {
        assert n > 1;
        assert HasLeaf(inner, rest[..n - 1]);
      }
      if n :| 0 < n < |rest| && HasLeaf(inner, rest[..n]) {
        assert HasLeaf(t, p[..n + 1]);
      }
    } else if p[0] in t && t[p[0]].Leaf? && |p| > 1 {
      assert HasLeaf(t, p[..1]);
    }
  }

  // ---------------------------------------------------------------------- merging

  function TableAt(t: map<string, Tree>, k: string): map<string, Tree> {
    if k in t && t[k].Table? then t[k].entries else map[]
  }

  /** mergeGeneric's tree: src over dst, tables merging key by key. */
  function Merge(dst: map<string, Tree>, src: Tree): map<string, Tree>
    requires src.Table?
    decreases src
  {
    map k | k in dst.Keys + src.entries.Keys ::
      if k !in src.entries then dst[k]
      else if src.entries[k].Leaf? then src.entries[k]
      else Table(Merge(TableAt(dst, k), src.entries[k]))
  }

  /** One merge, leaf by leaf: a leaf of the result is a leaf of the nearer tree, or a
      leaf of the farther one that the nearer does not shadow. */
  lemma {:induction false} MergedLeaf(dst: map<string, Tree>, src: Tree, p: Path, v: Tree)
    requires src.Table? && v.Leaf?
    ensures At(Merge(dst, src), p) == Some(v) <==>
            At(src.entries, p) == Some(v) || (At(dst, p) == Some(v) && !Shadows(src.entries, p))
    decreases src
  {
    if p != [] && p[0] in src.entries && src.entries[p[0]].Table? && |p| > 1 {
      MergedLeaf(TableAt(dst, p[0]), src.entries[p[0]], p[1..], v);
    }
  }

  /** loadConfigResolvedFromDir's fold: nearest layer first in the list, folded last. */
  function Merged(layers: seq<Layer>): map<string, Tree> {
    if layers == [] then map[] else Merge(Merged(layers[1..]), Table(layers[0].tree))
  }

  /** The i-th layer has a leaf at p that no nearer layer shadows. */
  ghost predicate Survives(layers: seq<Layer>, i: nat, p: Path) {
    i < |layers| && HasLeaf(layers[i].tree, p) && forall j | 0 <= j < i :: !Shadows(layers[j].tree, p)
  }

  /** The cascade rule, both ways: a path is a leaf of the merged tree exactly when some
      layer has a leaf there that no nearer layer shadows, and it holds that leaf. */
  lemma {:induction false} MergedLeafIffSurvives(layers: seq<Layer>, p: Path, v: Tree)
    requires v.Leaf?
    ensures At(Merged(layers), p) == Some(v)
            <==> exists i: nat :: Survives(layers, i, p) && At(layers[i].tree, p) == Some(v)
  {
    if layers == [] {
    } else {
      MergedLeafIffSurvives(layers[1..], p, v);
      MergedLeaf(Merged(layers[1..]), Table(layers[0].tree), p, v);
    }
  }

  // -------------------------------------------------------------------- side maps

  /** The two side maps, which always have the same keys. */
  datatype Side = Side(prov: map<string, string>, values: map<string, string>) {
    ghost predicate Valid() { prov.Keys == values.Keys }

    /** The file and value on record under a rendered path. */
    function Get(key: string): Option<(string, string)> {
      if key in prov && key in values then Some((prov[key], values[key])) else None
    }
  }

  function LeafValue(t: map<string, Tree>, p: Path): Option<string> {
    match At(t, p) case Some(Leaf(v)) => Some(v) case _ => None
  }

  /** The file and value of the nearest layer with a leaf at p, shadowed or not. */
  function Nearest(layers: seq<Layer>, p: Path): Option<(string, string)> {
    if layers == [] then None
    else if LeafValue(layers[0].tree, p).Some? then Some((layers[0].file, LeafValue(layers[0].tree, p).value))
    else Nearest(layers[1..], p)
  }

  lemma {:induction false} SurvivorIsNearest(layers: seq<Layer>, i: nat, p: Path)
    requires Survives(layers, i, p) && p != []
    ensures Nearest(layers, p) == Some((layers[i].file, At(layers[i].tree, p).value.v))
  {
    if i > 0 {
      ShadowsMeans(layers[0].tree, p);
      SurvivorIsNearest(layers[1..], i - 1, p);
    }
  }

  /** What the side maps say after folding layers: exactly the paths where some layer had a
      leaf, each with the nearest such layer's file and value. */
  ghost predicate Faithful(pr: Printable, layers: seq<Layer>, side: Side) {
    && (forall p :: Nearest(layers, p).Some? ==> side.Get(Render(pr, p)) == Nearest(layers, p))
    && (forall key | side.Get(key).Some? :: exists p :: Nearest(layers, p).Some? && key == Render(pr, p))
  }

  /** The main theorem of the cascade: every leaf of the merged tree is found in both side
      maps, with the value it holds and the file of the nearest layer with a leaf there. */
  lemma SideMapsAgreeWithTree(pr: Printable, layers: seq<Layer>, side: Side, p: Path)
    requires Faithful(pr, layers, side) && HasLeaf(Merged(layers), p)
    ensures side.Get(Render(pr, p)) == Nearest(layers, p)
    ensures Nearest(layers, p).Some? && Nearest(layers, p).value.1 == At(Merged(layers), p).value.v
    ensures exists i: nat :: Survives(layers, i, p) && side.Get(Render(pr, p)).value.0 == layers[i].file
  {
    var v := At(Merged(layers), p).value;
    MergedLeafIffSurvives(layers, p, v);
    var i: nat :| Survives(layers, i, p) && At(layers[i].tree, p) == Some(v);
    SurvivorIsNearest(layers, i, p);
  }

  // --------------------------------------------------------- what one merge records

  /** A leaf of src whose first key has been dealt with. */
  ghost predicate LeafUnder(src: Tree, done: set<string>, p: Path) {
    src.Table? && p != [] && p[0] in done && LeafValue(src.entries, p).Some?
  }

  ghost predicate Touched(pr: Printable, src: Tree, done: set<string>, base: Path, key: string) {
    exists p :: LeafUnder(src, done, p) && key == Render(pr, base + p)
  }

  /** From s0 to s1, every leaf of src under done was recorded below base with this file,
      and no other key changed. */
  ghost predicate Recorded(pr: Printable, s0: Side, s1: Side, src: Tree, done: set<string>, base: Path, file: string) {
    && s1.Valid()
    && (forall p | LeafUnder(src, done, p) ::
         s1.Get(Render(pr, base + p)) == Some((file, LeafValue(src.entries, p).value)))
    && (forall key | !Touched(pr, src, done, base, key) :: s1.Get(key) == s0.Get(key))
  }

  lemma SamePath(pr: Printable, base: Path, p: Path, q: Path)
    requires Render(pr, base + p) == Render(pr, base + q)
    ensures p == q
  {
    RenderInjective(pr, base + p, base + q);
    CancelPrefix(base, p, q);
  }

  lemma RecordLeaf(pr: Printable, s0: Side, s1: Side, src: Tree, done: set<string>, base: Path, file: string, k: string)
    requires Recorded(pr, s0, s1, src, done, base, file)
    requires src.Table? && k in src.entries && src.entries[k].Leaf? && k !in done
    ensures var key := Render(pr, base + [k]);
            Recorded(pr, s0, Side(s1.prov[key := file], s1.values[key := src.entries[k].v]), src, done + {k}, base,
                     file)
  {
    var key := Render(pr, base + [k]);
    var s2 := Side(s1.prov[key := file], s1.values[key := src.entries[k].v]);
    assert LeafUnder(src, done + {k}, [k]);
    forall p | LeafUnder(src, done + {k}, p)
      ensures s2.Get(Render(pr, base + p)) == Some((file, LeafValue(src.entries, p).value))
    {
      if p != [k] {
        assert LeafUnder(src, done, p);
        if Render(pr, base + p) == key {
          SamePath(pr, base, p, [k]);
        }
      }
    }
    forall x | !Touched(pr, src, done + {k}, base, x) ensures s2.Get(x) == s0.Get(x) {
      assert Touched(pr, src, done, base, x) ==> Touched(pr, src, done + {k}, base, x);
    }
  }

  lemma DeeperLeaf(src: Tree, k: string, p: Path)
    requires src.Table? && k in src.entries && src.entries[k].Table?
    requires p != [] && p[0] == k
    ensures LeafValue(src.entries, p).Some?
            <==> p[1..] != [] && LeafUnder(src.entries[k], src.entries[k].entries.Keys, p[1..])
    ensures p[1..] != [] ==> LeafValue(src.entries, p) == LeafValue(src.entries[k].entries, p[1..])
  {
    if p[1..] != [] {
      assert At(src.entries, p) == At(src.entries[k].entries, p[1..]);
    }
  }

  lemma InnerLeafRecorded(pr: Printable, s1: Side, s2: Side, src: Tree, base: Path, file: string, k: string, q: Path)
    requires src.Table? && k in src.entries && src.entries[k].Table?
    requires Recorded(pr, s1, s2, src.entries[k], src.entries[k].entries.Keys, base + [k], file)
    requires LeafUnder(src.entries[k], src.entries[k].entries.Keys, q)
    ensures s2.Get(Render(pr, base + ([k] + q))) == Some((file, LeafValue(src.entries[k].entries, q).value))
  {
    Regroup(base, [k], q);
  }

  lemma OuterLeafKept(pr: Printable, s1: Side, s2: Side, sub: Tree, base: Path, file: string, k: string, p: Path)
    requires sub.Table? && p != [] && p[0] != k
    requires Recorded(pr, s1, s2, sub, sub.entries.Keys, base + [k], file)
    ensures s2.Get(Render(pr, base + p)) == s1.Get(Render(pr, base + p))
  {
    OutsideNested(pr, sub, base, k, p);
  }

  lemma NestedTouchesOuter(pr: Printable, src: Tree, base: Path, k: string, done: set<string>, x: string)
    requires src.Table? && k in src.entries && src.entries[k].Table?
    requires Touched(pr, src.entries[k], src.entries[k].entries.Keys, base + [k], x)
    ensures Touched(pr, src, done + {k}, base, x)
  {
    var sub := src.entries[k];
    var q :| LeafUnder(sub, sub.entries.Keys, q) && x == Render(pr, base + [k] + q);
    assert base + [k] + q == base + ([k] + q) && ([k] + q)[1..] == q;
    DeeperLeaf(src, k, [k] + q);
    assert LeafUnder(src, done + {k}, [k] + q);
  }

  /** A nested table records below its own key: elsewhere nothing moved, and there the
      nested leaves are the outer ones. */
  lemma RecordTable(pr: Printable, s0: Side, s1: Side, s2: Side, src: Tree, done: set<string>, base: Path,
                    file: string, k: string)
    requires Recorded(pr, s0, s1, src, done, base, file)
    requires src.Table? && k in src.entries && src.entries[k].Table? && k !in done
    requires Recorded(pr, s1, s2, src.entries[k], src.entries[k].entries.Keys, base + [k], file)
    ensures Recorded(pr, s0, s2, src, done + {k}, base, file)
  {
    forall p | LeafUnder(src, done + {k}, p)
      ensures s2.Get(Render(pr, base + p)) == Some((file, LeafValue(src.entries, p).value))
    {
      if p[0] == k {
        DeeperLeaf(src, k, p);
        InnerLeafRecorded(pr, s1, s2, src, base, file, k, p[1..]);
        assert p == [k] + p[1..];
      } else {
        assert LeafUnder(src, done, p);
        OuterLeafKept(pr, s1, s2, src.entries[k], base, file, k, p);
      }
    }
    forall x | !Touched(pr, src, done + {k}, base, x) ensures s2.Get(x) == s0.Get(x) {
      assert Touched(pr, src, done, base, x) ==> Touched(pr, src, done + {k}, base, x);
      if Touched(pr, src.entries[k], src.entries[k].entries.Keys, base + [k], x) {
        NestedTouchesOuter(pr, src, base, k, done, x);
      }
    }
  }

  lemma OutsideNested(pr: Printable, sub: Tree, base: Path, k: string, p: Path)
    requires sub.Table? && p != [] && p[0] != k
    ensures !Touched(pr, sub, sub.entries.Keys, base + [k], Render(pr, base + p))
  {
    forall q | LeafUnder(sub, sub.entries.Keys, q) ensures Render(pr, base + [k] + q) != Render(pr, base + p) {
      if Render(pr, base + [k] + q) == Render(pr, base + p) {
        assert base + [k] + q == base + ([k] + q);
        SamePath(pr, base, [k] + q, p);
      }
    }
  }

  /** Merging one more layer keeps the side maps faithful. */
  lemma LayerKeepsFaithful(pr: Printable, layers: seq<Layer>, s0: Side, s1: Side)
    requires layers != [] && Faithful(pr, layers[1..], s0)
    requires Recorded(pr, s0, s1, Table(layers[0].tree), layers[0].tree.Keys, [], layers[0].file)
    ensures Faithful(pr, layers, s1)
  {
    var src := Table(layers[0].tree);
    forall p ensures LeafUnder(src, layers[0].tree.Keys, p) <==> LeafValue(layers[0].tree, p).Some? {}
    forall p | Nearest(layers, p).Some? ensures s1.Get(Render(pr, p)) == Nearest(layers, p) {
      assert [] + p == p;
      if LeafValue(layers[0].tree, p).None? && Touched(pr, src, layers[0].tree.Keys, [], Render(pr, p)) {
        var q :| LeafUnder(src, layers[0].tree.Keys, q) && Render(pr, p) == Render(pr, [] + q);
        SamePath(pr, [], p, q);
      }
    }
    forall key | s1.Get(key).Some? ensures exists p :: Nearest(layers, p).Some? && key == Render(pr, p) {
      if Touched(pr, src, layers[0].tree.Keys, [], key) {
        var q :| LeafUnder(src, layers[0].tree.Keys, q) && key == Render(pr, [] + q);
        assert [] + q == q && Nearest(layers, q).Some?;
      } else {
        var p :| Nearest(layers[1..], p).Some? && key == Render(pr, p);
        assert Nearest(layers, p).Some?;
      }
    }
  }

  // ------------------------------------------------------------ the imperative form

  /** The two maps the loader passes down and every merge writes into. */
  class Cascade {
    var prov: map<string, string>
    var values: map<string, string>

    constructor ()
      ensures prov == map[] && values == map[]
    {
      prov, values := map[], map[];
    }

    ghost function View(): Side
      reads this
    {
      Side(prov, values)
    }

    /** mergeGeneric.  The keys of src come out in an arbitrary order; path is the key path
        that base renders, kept only for the proof. */
    method MergeGeneric(pr: Printable, dst: map<string, Tree>, src: Tree, base: string, ghost path: Path, file: string)
      returns (merged: map<string, Tree>)
      requires src.Table? && base == Render(pr, path) && View().Valid()
      modifies this
      ensures merged == Merge(dst, src)
      ensures Recorded(pr, old(View()), View(), src, src.entries.Keys, path, file)
      decreases src
    {
      merged := dst;
      var keys := InSomeOrder(src.entries.Keys);
      for i := 0 to |keys|
        invariant merged == MergedKeys(dst, src, Elements(keys[..i]))
        invariant Recorded(pr, old(View()), View(), src, Elements(keys[..i]), path, file)
      {
        var k := keys[i];
        assert keys[..i + 1] == keys[..i] + [k];
        ElementsAppend(keys[..i], k);
        assert k in Elements(keys) && k !in Elements(keys[..i]);
        MergedKeysStep(dst, src, Elements(keys[..i]), k);
        if src.entries[k].Table? {
          merged := MergeTable(pr, merged, src, base, path, file, k, Elements(keys[..i]), old(View()));
        } else {
          merged := merged[k := src.entries[k]];
          MergeLeaf(pr, src, base, path, file, k, Elements(keys[..i]), old(View()));
        }
      }
      assert keys[..|keys|] == keys;
      assert merged == Merge(dst, src);
    }

    /** One turn of the loop, at a table. */
    method MergeTable(pr: Printable, before: map<string, Tree>, src: Tree, base: string, ghost path: Path,
                      file: string, k: string, ghost done: set<string>, ghost s0: Side)
      returns (merged: map<string, Tree>)
      requires src.Table? && base == Render(pr, path) && k in src.entries && src.entries[k].Table? && k !in done
      requires Recorded(pr, s0, View(), src, done, path, file)
      modifies this
      ensures merged == before[k := Table(Merge(TableAt(before, k), src.entries[k]))]
      ensures Recorded(pr, s0, View(), src, done + {k}, path, file)
      decreases src, 0
    {
      ghost var s1 := View();
      var sub := MergeGeneric(pr, TableAt(before, k), src.entries[k], Join(pr, base, k), path + [k], file);
      merged := before[k := Table(sub)];
      RecordTable(pr, s0, s1, View(), src, done, path, file, k);
    }

    /** One turn of the loop, at anything else. */
    method MergeLeaf(pr: Printable, src: Tree, base: string, ghost path: Path, file: string, k: string,
                     ghost done: set<string>, ghost s0: Side)
      requires src.Table? && base == Render(pr, path) && k in src.entries && src.entries[k].Leaf? && k !in done
      requires Recorded(pr, s0, View(), src, done, path, file)
      modifies this
      ensures Recorded(pr, s0, View(), src, done + {k}, path, file)
    {
      RecordLeaf(pr, s0, View(), src, done, path, file, k);
      var key := Join(pr, base, k);
      prov := prov[key := file];
      values := values[key := src.entries[k].v];
    }

    /** The fold of loadConfigResolvedFromDir, from the farthest layer to the nearest. */
    method Load(pr: Printable, layers: seq<Layer>) returns (merged: map<string, Tree>)
      requires prov == map[] && values == map[]
      modifies this
      ensures merged == Merged(layers) && Faithful(pr, layers, View())
    {
      merged := map[];
      var i := |layers|;
      assert layers[i..] == [];
      while i > 0
        invariant 0 <= i <= |layers|
        invariant merged == Merged(layers[i..]) && Faithful(pr, layers[i..], View()) && View().Valid()
      {
        i := i - 1;
        ghost var s0 := View();
        assert layers[i..][1..] == layers[i + 1..] && layers[i..][0] == layers[i];
        merged := MergeGeneric(pr, merged, Table(layers[i].tree), "", [], layers[i].file);
        LayerKeepsFaithful(pr, layers[i..], s0, View());
      }
      assert layers[0..] == layers;
    }
  }

  /** The merge after only the keys in done have been dealt with. */
  function MergedKeys(dst: map<string, Tree>, src: Tree, done: set<string>): map<string, Tree>
    requires src.Table? && done <= src.entries.Keys
  {
    map k | k in dst.Keys + done :: if k in done then Merge(dst, src)[k] else dst[k]
  }

  lemma MergedKeysStep(dst: map<string, Tree>, src: Tree, done: set<string>, k: string)
    requires src.Table? && done <= src.entries.Keys && k in src.entries && k !in done
    ensures var before := MergedKeys(dst, src, done);
            MergedKeys(dst, src, done + {k}) ==
            before[k := if src.entries[k].Leaf? then src.entries[k]
                        else Table(Merge(TableAt(before, k), src.entries[k]))]
  {
    assert TableAt(MergedKeys(dst, src, done), k) == TableAt(dst, k);
  }
}
