/** The recursion driver of `__init__.py`: `main_object` fractures one
    object and, at level 0, re-fractures a chosen part of the fragments level
    by level; `main` runs it for every selected object.

    The host is a parameter: the fracture of one object (the cells, the
    booleans and the re-centring) is a function of the object, the level and
    the source limit handed to it; the two ordering keys are functions of a
    fragment; `random.shuffle` is an arbitrary permutation per level. */
module Driver {
  import opened Wrappers
  import opened Sorting
  import Geometry

  /** A Blender object, by identity. */
  type ObjectId = nat

  /** `recursion_chance_select`. */
  datatype ChanceSelect = RandomSelect | SizeMin | SizeMax | CursorMin | CursorMax

  /** An entry `(i, o)` of `enumerate(objects)`. */
  datatype Pair = Pair(index: nat, obj: ObjectId)

  /** `fracture(o, level, sourceLimit)` is what `cell_fracture_objects`
      followed by `cell_fracture_boolean` leaves for `o`, or the error it
      raises (such as "No points found", see `SetupPoints.CellFractureCells`);
      `sizeKey` is the squared diagonal of a fragment's bounding box,
      `cursorKey` its squared distance to the 3D cursor; `shuffle(level, ps)`
      is the order `random.shuffle` leaves at that level. */
  datatype Scene = Scene(fracture: (ObjectId, nat, nat) -> Result<seq<ObjectId>, FractureError>,
                         sizeKey: ObjectId -> real,
                         cursorKey: ObjectId -> real,
                         shuffle: (nat, seq<Pair>) -> seq<Pair>)

  /** The operator settings `main_object` reads. */
  datatype Settings = Settings(sourceLimit: nat, recursion: nat, recursionSourceLimit: nat,
                               recursionClamp: nat, recursionChance: real,
                               chanceSelect: ChanceSelect, useRemoveOriginal: bool,
                               interiorVgroup: bool, sharpEdges: bool)

  ghost predicate ShuffleAt(shuffle: (nat, seq<Pair>) -> seq<Pair>, level: nat, ps: seq<Pair>)
  {
    multiset(shuffle(level, ps)) == multiset(ps)
  }

  /** A shuffle only reorders. */
  ghost predicate ValidScene(scene: Scene)
  {
    forall level, ps :: ShuffleAt(scene.shuffle, level, ps)
  }

  // ---------------------------------------------------------------------------
  // Choosing the fragments to recurse into

  function Enumerate(objects: seq<ObjectId>): (ps: seq<Pair>)
    ensures |ps| == |objects|
    ensures forall k :: 0 <= k < |ps| ==> ps[k] == Pair(k, objects[k])
  {
    seq(|objects|, k requires 0 <= k < |objects| => Pair(k, objects[k]))
  }

  /** Python's `int(x)`: truncation toward zero. */
  function PyInt(x: real): int
  {
    if x >= 0.0 then x.Floor else -((-x).Floor)
  }

  /** The length left by `lst[k:] = []` on a list of length `n`. */
  function KeepCount(k: int, n: nat): (r: nat)
    ensures r <= n
  {
    if k >= 0 then (if k < n then k else n)
    else if n + k > 0 then n + k else 0
  }

  /** For a chance in [0, 1] the kept count is `floor(chance * n)`. */
  lemma KeepCountOfChance(chance: real, n: nat)
    requires 0.0 <= chance <= 1.0
    ensures KeepCount(PyInt(chance * n as real), n) == (chance * n as real).Floor
  {
    var m := n as real;
    Geometry.MulMonotone(m, chance, 1.0);
    Geometry.MulMonotone(m, 0.0, chance);
    assert m * 1.0 == m && m * 0.0 == 0.0;
    assert chance * m == m * chance;
    assert 0.0 <= chance * m;
    assert chance * m <= m;
    assert (chance * m).Floor <= n;
  }

  function SizeKeyOf(scene: Scene): Pair -> real
  {
    (p: Pair) => scene.sizeKey(p.obj)
  }

  function CursorKeyOf(scene: Scene): Pair -> real
  {
    (p: Pair) => scene.cursorKey(p.obj)
  }

  function IndexKey(): Pair -> real
  {
    (p: Pair) => p.index as real
  }

  /** The order the policy puts the pairs in before truncation: shuffled, or
      sorted by fragment size or distance to the cursor, reversed for the MAX
      variants. Every policy only reorders the pairs. */
  function Ordered(scene: Scene, select: ChanceSelect, level: nat, ps: seq<Pair>): (r: seq<Pair>)
    requires ValidScene(scene)
    ensures multiset(r) == multiset(ps) && |r| == |ps|
  {
    var r := match select
      case RandomSelect => scene.shuffle(level, ps)
      case SizeMin => SortBy(ps, SizeKeyOf(scene))
      case SizeMax => Reverse(SortBy(ps, SizeKeyOf(scene)))
      case CursorMin => SortBy(ps, CursorKeyOf(scene))
      case CursorMax => Reverse(SortBy(ps, CursorKeyOf(scene)));
    OrderedPermutes(scene, select, level, ps);
    assert |multiset(r)| == |multiset(ps)|;
    r
  }

  /** How many pairs survive the truncation. */
  function KeptCount(s: Settings, n: nat): nat
  {
    if s.recursionChance != 1.0 then KeepCount(PyInt(s.recursionChance * n as real), n) else n
  }

  /** `objects_recurse_input` at the start of the expansion loop: with a
      chance other than 1, the policy's order truncated to the kept count and
      sorted back by index; then reversed. */
  function Selection(scene: Scene, s: Settings, level: nat, objects: seq<ObjectId>): seq<Pair>
    requires ValidScene(scene)
  {
    var ps := Enumerate(objects);
    if s.recursionChance != 1.0 then
      var kept := Ordered(scene, s.chanceSelect, level, ps)[..KeptCount(s, |ps|)];
      Reverse(SortBy(kept, IndexKey()))
    else Reverse(ps)
  }

  /** Every entry pairs a position of `objects` with the object there. */
  ghost predicate PairsOf(ps: seq<Pair>, objects: seq<ObjectId>)
  {
    forall k :: 0 <= k < |ps| ==> ps[k].index < |objects| && ps[k].obj == objects[ps[k].index]
  }

  /** Indices strictly decrease along the list. */
  ghost predicate Descending(ps: seq<Pair>)
  {
    forall a, b :: 0 <= a < b < |ps| ==> ps[a].index > ps[b].index
  }

  lemma TwoCopies<T>(s: seq<T>, a: nat, b: nat)
    requires a < b < |s| && s[a] == s[b]
    ensures multiset(s)[s[a]] >= 2
  {
    assert s == s[..b] + s[b..];
    assert s[a] == s[..b][a];
    assert s[b] == s[b..][0];
  }

  /** No pair occurs twice in an enumeration. */
  lemma {:induction false} EnumerateOnce(objects: seq<ObjectId>, x: Pair)
    ensures multiset(Enumerate(objects))[x] <= 1
  {
    if objects != [] {
      var n := |objects| - 1;
      var init := objects[..n];
      EnumerateOnce(init, x);
      assert Enumerate(objects) == Enumerate(init) + [Pair(n, objects[n])];
      if x == Pair(n, objects[n]) {
        assert x !in Enumerate(init);
      }
    }
  }

  /** A list of distinct enumeration pairs sorted by index has strictly
      increasing indices. */
  lemma AscendingWhenDistinct(sorted: seq<Pair>, objects: seq<ObjectId>)
    requires multiset(sorted) <= multiset(Enumerate(objects))
    requires SortedBy(sorted, IndexKey())
    ensures PairsOf(sorted, objects)
    ensures forall a, b :: 0 <= a < b < |sorted| ==> sorted[a].index < sorted[b].index
  {
    var e := Enumerate(objects);
    forall k | 0 <= k < |sorted|
      ensures sorted[k].index < |objects| && sorted[k].obj == objects[sorted[k].index]
    {
      assert sorted[k] in multiset(e) by {
        assert sorted[k] in multiset(sorted);
      }
      var m := PositionOf(e, sorted[k]);
    }
    forall a, b | 0 <= a < b < |sorted|
      ensures sorted[a].index < sorted[b].index
    {
      assert IndexKey()(sorted[a]) <= IndexKey()(sorted[b]);
      if sorted[a].index == sorted[b].index {
        TwoCopies(sorted, a, b);
        EnumerateOnce(objects, sorted[a]);
      }
    }
  }

  /** Reversing strictly increasing indices gives strictly decreasing ones. */
  lemma ReverseDescends(ps: seq<Pair>, objects: seq<ObjectId>)
    requires PairsOf(ps, objects)
    requires forall a, b :: 0 <= a < b < |ps| ==> ps[a].index < ps[b].index
    ensures PairsOf(Reverse(ps), objects) && Descending(Reverse(ps))
  {
  }

  /** Each policy only reorders the pairs. */
  lemma OrderedPermutes(scene: Scene, select: ChanceSelect, level: nat, ps: seq<Pair>)
    requires ValidScene(scene)
    ensures var r := match select
      case RandomSelect => scene.shuffle(level, ps)
      case SizeMin => SortBy(ps, SizeKeyOf(scene))
      case SizeMax => Reverse(SortBy(ps, SizeKeyOf(scene)))
      case CursorMin => SortBy(ps, CursorKeyOf(scene))
      case CursorMax => Reverse(SortBy(ps, CursorKeyOf(scene)));
      multiset(r) == multiset(ps)
  {
    match select
    case RandomSelect =>
      assert ShuffleAt(scene.shuffle, level, ps);
    case SizeMin =>
      SortBySortsAndPermutes(ps, SizeKeyOf(scene));
    case SizeMax =>
      SortBySortsAndPermutes(ps, SizeKeyOf(scene));
      ReversePermutes(SortBy(ps, SizeKeyOf(scene)));
    case CursorMin =>
      SortBySortsAndPermutes(ps, CursorKeyOf(scene));
    case CursorMax =>
      SortBySortsAndPermutes(ps, CursorKeyOf(scene));
      ReversePermutes(SortBy(ps, CursorKeyOf(scene)));
  }

  /** The selection holds the kept pairs, each once, paired with its object,
      in strictly decreasing index order; with a chance of 1 it holds every
      fragment. */
  lemma SelectionDescending(scene: Scene, s: Settings, level: nat, objects: seq<ObjectId>)
    requires ValidScene(scene)
    ensures var sel := Selection(scene, s, level, objects);
      && PairsOf(sel, objects) && Descending(sel)
      && |sel| == KeptCount(s, |objects|)
      && (s.recursionChance != 1.0 ==>
            multiset(sel) == multiset(Ordered(scene, s.chanceSelect, level, Enumerate(objects))[..KeptCount(s, |objects|)]))
      && (s.recursionChance == 1.0 ==> multiset(sel) == multiset(Enumerate(objects)))
  {
    var ps := Enumerate(objects);
    if s.recursionChance != 1.0 {
      var ordered := Ordered(scene, s.chanceSelect, level, ps);
      var kept := ordered[..KeptCount(s, |ps|)];
      assert ordered == kept + ordered[KeptCount(s, |ps|)..];
      var sorted := SortBy(kept, IndexKey());
      SortBySortsAndPermutes(kept, IndexKey());
      AscendingWhenDistinct(sorted, objects);
      ReverseDescends(sorted, objects);
      ReversePermutes(sorted);
    } else {
      ReverseDescends(ps, objects);
      ReversePermutes(ps);
    }
  }

  /** The size and cursor policies keep the fragments first in their order:
      every kept fragment is no larger (SIZE_MIN) or no smaller (SIZE_MAX)
      than every dropped one, and likewise for the distance to the cursor. */
  lemma PolicyKeepsFirst(scene: Scene, s: Settings, level: nat, objects: seq<ObjectId>, x: Pair, y: Pair)
    requires ValidScene(scene) && s.recursionChance != 1.0
    requires var ordered := Ordered(scene, s.chanceSelect, level, Enumerate(objects));
      x in ordered[..KeptCount(s, |objects|)] && y in ordered[KeptCount(s, |objects|)..]
    ensures s.chanceSelect == SizeMin ==> scene.sizeKey(x.obj) <= scene.sizeKey(y.obj)
    ensures s.chanceSelect == SizeMax ==> scene.sizeKey(x.obj) >= scene.sizeKey(y.obj)
    ensures s.chanceSelect == CursorMin ==> scene.cursorKey(x.obj) <= scene.cursorKey(y.obj)
    ensures s.chanceSelect == CursorMax ==> scene.cursorKey(x.obj) >= scene.cursorKey(y.obj)
  {
    var ps := Enumerate(objects);
    var n := KeptCount(s, |objects|);
    match s.chanceSelect
    case RandomSelect =>
    case SizeMin =>
      SortBySortsAndPermutes(ps, SizeKeyOf(scene));
      PrefixKeysBelowSuffix(SortBy(ps, SizeKeyOf(scene)), SizeKeyOf(scene), n, x, y);
    case SizeMax =>
      SortBySortsAndPermutes(ps, SizeKeyOf(scene));
      ReversePrefixKeysAboveSuffix(SortBy(ps, SizeKeyOf(scene)), SizeKeyOf(scene), n, x, y);
    case CursorMin =>
      SortBySortsAndPermutes(ps, CursorKeyOf(scene));
      PrefixKeysBelowSuffix(SortBy(ps, CursorKeyOf(scene)), CursorKeyOf(scene), n, x, y);
    case CursorMax =>
      SortBySortsAndPermutes(ps, CursorKeyOf(scene));
      ReversePrefixKeysAboveSuffix(SortBy(ps, CursorKeyOf(scene)), CursorKeyOf(scene), n, x, y);
  }

  // ---------------------------------------------------------------------------
  // The expansion of one level

  /** The state of one level's loop: the fragment list, `objects_recursive`,
      how many selected pairs were expanded, and the error of the pair whose
      fracture raised, if one did. */
  datatype Round = Round(objects: seq<ObjectId>, children: seq<ObjectId>, processed: nat,
                         failed: Option<FractureError>)

  /** `del s[i]`. */
  function Delete(s: seq<ObjectId>, i: nat): (r: seq<ObjectId>)
    ensures i < |s| ==> |r| == |s| - 1
  {
    if i < |s| then s[..i] + s[i + 1..] else s
  }

  /** `main_object(o, level_sub)` for a selected pair: below level 0 it is
      the host's fracture with the recursion source limit. */
  function FractureOf(scene: Scene, s: Settings, levelSub: nat, p: Pair): Result<seq<ObjectId>, FractureError>
  {
    scene.fracture(p.obj, levelSub, s.recursionSourceLimit)
  }

  /** The fragments a pair adds to `objects_recursive`; a failed fracture
      adds none, since it ends the run. */
  function Fragments(scene: Scene, s: Settings, levelSub: nat, p: Pair): seq<ObjectId>
  {
    var f := FractureOf(scene, s, levelSub, p);
    if f.Ok? then f.value else []
  }

  /** The loop over `objects_recurse_input` from its `j`-th pair on: each
      pair's fragment is fractured one level down onto `children`, removed
      from `objects` when originals are removed, and the loop stops once the
      two lists together reach a non-zero clamp. A fracture that raises ends
      the loop with its error, at the pair that raised. */
  function ExpandFrom(scene: Scene, s: Settings, levelSub: nat, sel: seq<Pair>, j: nat,
                      objects: seq<ObjectId>, children: seq<ObjectId>): (r: Round)
    requires j <= |sel|
    ensures j <= r.processed <= |sel|
    decreases |sel| - j
  {
    if j == |sel| then Round(objects, children, j, None)
    else
      var p := sel[j];
      var f := FractureOf(scene, s, levelSub, p);
      if f.Err? then Round(objects, children, j, Some(f.error))
      else
        var children' := children + f.value;
        var objects' := if s.useRemoveOriginal then Delete(objects, p.index) else objects;
        if s.recursionClamp != 0 && |objects'| + |children'| >= s.recursionClamp then
          Round(objects', children', j + 1, None)
        else ExpandFrom(scene, s, levelSub, sel, j + 1, objects', children')
  }

  /** The fragments of `objects` at the positions not in `gone`, in order. */
  function Survivors(objects: seq<ObjectId>, gone: set<nat>): seq<ObjectId>
    decreases |objects|
  {
    if objects == [] then []
    else
      var n := |objects| - 1;
      Survivors(objects[..n], gone) + (if n in gone then [] else [objects[n]])
  }

  /** The indices of a list of pairs. */
  function IndexSet(ps: seq<Pair>): set<nat>
    decreases |ps|
  {
    if ps == [] then {} else IndexSet(ps[..|ps| - 1]) + {ps[|ps| - 1].index}
  }

  /** The fragments the pairs `ps` fracture into, in order. */
  function ChildrenOf(scene: Scene, s: Settings, levelSub: nat, ps: seq<Pair>): seq<ObjectId>
    decreases |ps|
  {
    if ps == [] then []
    else ChildrenOf(scene, s, levelSub, ps[..|ps| - 1]) + Fragments(scene, s, levelSub, ps[|ps| - 1])
  }

  lemma {:induction false} IndexSetMembers(ps: seq<Pair>, d: nat)
    requires d in IndexSet(ps)
    ensures exists k :: 0 <= k < |ps| && ps[k].index == d
    decreases |ps|
  {
    var n := |ps| - 1;
    if d != ps[n].index {
      IndexSetMembers(ps[..n], d);
      var k :| 0 <= k < n && ps[..n][k].index == d;
      assert ps[k].index == d;
    }
  }

  /** Removing positions at or above `m` leaves the first `m` fragments. */
  lemma {:induction false} SurvivorsPrefix(objects: seq<ObjectId>, gone: set<nat>, m: nat)
    requires m <= |objects|
    requires forall d :: d in gone ==> d >= m
    ensures m <= |Survivors(objects, gone)| <= |objects|
    ensures Survivors(objects, gone)[..m] == objects[..m]
    decreases |objects|
  {
    if objects != [] {
      var n := |objects| - 1;
      var init := objects[..n];
      if m <= n {
        SurvivorsPrefix(init, gone, m);
        assert init[..m] == objects[..m];
      } else {
        SurvivorsPrefix(init, gone, n);
        assert Survivors(init, gone) == init;
        assert objects == init + [objects[n]];
      }
    }
  }

  /** Deleting position `i` below every removed position removes `i` too. */
  lemma {:induction false} DeleteSurvivor(objects: seq<ObjectId>, gone: set<nat>, i: nat)
    requires i < |objects|
    requires forall d :: d in gone ==> d > i
    ensures Delete(Survivors(objects, gone), i) == Survivors(objects, gone + {i})
    decreases |objects|
  {
    var n := |objects| - 1;
    var init := objects[..n];
    var last := objects[n];
    if n in gone {
      DeleteSurvivor(init, gone, i);
      assert Survivors(objects, gone) == Survivors(init, gone);
      assert Survivors(objects, gone + {i}) == Survivors(init, gone + {i});
    } else if n == i {
      SurvivorsPrefix(init, gone, n);
      SurvivorsPrefix(init, gone + {i}, n);
      assert Survivors(objects, gone) == init + [last];
      assert Survivors(objects, gone + {i}) == init;
      DeleteLast(init, last);
    } else {
      DeleteSurvivor(init, gone, i);
      SurvivorsPrefix(init, gone, i + 1);
      var x := Survivors(init, gone);
      assert Survivors(objects, gone) == x + [last];
      assert Survivors(objects, gone + {i}) == Survivors(init, gone + {i}) + [last];
      DeleteAppend(x, last, i);
    }
  }

  lemma DeleteLast(x: seq<ObjectId>, e: ObjectId)
    ensures Delete(x + [e], |x|) == x
  {
    assert (x + [e])[..|x|] == x;
  }

  lemma DeleteAppend(x: seq<ObjectId>, e: ObjectId, i: nat)
    requires i < |x|
    ensures Delete(x + [e], i) == Delete(x, i) + [e]
  {
    assert (x + [e])[..i] == x[..i];
    assert (x + [e])[i + 1..] == x[i + 1..] + [e];
  }

  /** The loop state after `j` pairs of a descending selection. */
  ghost predicate RoundState(scene: Scene, s: Settings, levelSub: nat, sel: seq<Pair>, j: nat,
                             orig: seq<ObjectId>, objects: seq<ObjectId>, children: seq<ObjectId>)
    requires j <= |sel|
  {
    && objects == (if s.useRemoveOriginal then Survivors(orig, IndexSet(sel[..j])) else orig)
    && |objects| == |orig| - (if s.useRemoveOriginal then j else 0)
    && children == ChildrenOf(scene, s, levelSub, sel[..j])
  }

  /** `len(objects) + len(objects_recursive)` after `m` pairs of the
      selection were expanded. */
  ghost function CountAfter(scene: Scene, s: Settings, levelSub: nat, sel: seq<Pair>,
                            orig: seq<ObjectId>, m: nat): int
    requires m <= |sel|
  {
    |orig| - (if s.useRemoveOriginal then m else 0) + |ChildrenOf(scene, s, levelSub, sel[..m])|
  }

  /** The identity assertion of the expansion loop holds: the pair about to be processed
      still names the fragment at its index, since every fragment removed so
      far sat at a higher index. */
  lemma ProcessedPrefixIntact(scene: Scene, s: Settings, levelSub: nat, sel: seq<Pair>, j: nat,
                              orig: seq<ObjectId>, objects: seq<ObjectId>, children: seq<ObjectId>)
    requires PairsOf(sel, orig) && Descending(sel)
    requires j < |sel|
    requires RoundState(scene, s, levelSub, sel, j, orig, objects, children)
    ensures sel[j].index < |objects| && objects[sel[j].index] == sel[j].obj
    ensures forall d :: d in IndexSet(sel[..j]) ==> d > sel[j].index
  {
    var i := sel[j].index;
    forall d | d in IndexSet(sel[..j])
      ensures d > i
    {
      IndexSetMembers(sel[..j], d);
    }
    if s.useRemoveOriginal {
      SurvivorsPrefix(orig, IndexSet(sel[..j]), i + 1);
      assert objects[..i + 1][i] == orig[..i + 1][i];
    }
  }

  /** Processing pair `j` moves the loop state to `j + 1`. */
  lemma RoundStep(scene: Scene, s: Settings, levelSub: nat, sel: seq<Pair>, j: nat,
                  orig: seq<ObjectId>, objects: seq<ObjectId>, children: seq<ObjectId>)
    requires PairsOf(sel, orig) && Descending(sel)
    requires j < |sel|
    requires RoundState(scene, s, levelSub, sel, j, orig, objects, children)
    ensures RoundState(scene, s, levelSub, sel, j + 1, orig,
                       if s.useRemoveOriginal then Delete(objects, sel[j].index) else objects,
                       children + Fragments(scene, s, levelSub, sel[j]))
  {
    ProcessedPrefixIntact(scene, s, levelSub, sel, j, orig, objects, children);
    assert sel[..j + 1][..j] == sel[..j];
    if s.useRemoveOriginal {
      DeleteSurvivor(orig, IndexSet(sel[..j]), sel[j].index);
    }
  }

  /** One step of the loop, unfolded. */
  lemma ExpandUnfold(scene: Scene, s: Settings, levelSub: nat, sel: seq<Pair>, j: nat,
                     objects: seq<ObjectId>, children: seq<ObjectId>)
    requires j < |sel|
    ensures var f := FractureOf(scene, s, levelSub, sel[j]);
      var objects' := if s.useRemoveOriginal then Delete(objects, sel[j].index) else objects;
      var children' := children + Fragments(scene, s, levelSub, sel[j]);
      ExpandFrom(scene, s, levelSub, sel, j, objects, children)
      == if f.Err? then Round(objects, children, j, Some(f.error))
         else if s.recursionClamp != 0 && |objects'| + |children'| >= s.recursionClamp
         then Round(objects', children', j + 1, None)
         else ExpandFrom(scene, s, levelSub, sel, j + 1, objects', children')
  {
  }

  /** Before the loop nothing is processed. */
  lemma RoundStart(scene: Scene, s: Settings, levelSub: nat, sel: seq<Pair>, orig: seq<ObjectId>)
    ensures RoundState(scene, s, levelSub, sel, 0, orig, orig, [])
  {
    assert sel[..0] == [];
    SurvivorsPrefix(orig, {}, |orig|);
  }

  /** One level's loop expands a prefix of the selection whose fractures all
      succeed, at least one pair when there is any and none fails; it stops
      short of the end only on a failed fracture or a reached clamp. */
  lemma {:induction false} ExpandProgress(scene: Scene, s: Settings, levelSub: nat, sel: seq<Pair>, j: nat,
                                          objects: seq<ObjectId>, children: seq<ObjectId>)
    requires j <= |sel|
    ensures var r := ExpandFrom(scene, s, levelSub, sel, j, objects, children);
      && (j < |sel| && r.failed.None? ==> j < r.processed)
      && (forall m :: j <= m < r.processed ==> FractureOf(scene, s, levelSub, sel[m]).Ok?)
      && (r.failed.Some? ==>
            r.processed < |sel| && FractureOf(scene, s, levelSub, sel[r.processed]) == Err(r.failed.value))
      && (r.processed < |sel| && r.failed.None? ==>
            s.recursionClamp != 0 && |r.objects| + |r.children| >= s.recursionClamp)
    decreases |sel| - j
  {
    if j < |sel| {
      var f := FractureOf(scene, s, levelSub, sel[j]);
      if f.Ok? {
        var objects' := if s.useRemoveOriginal then Delete(objects, sel[j].index) else objects;
        var children' := children + f.value;
        if !(s.recursionClamp != 0 && |objects'| + |children'| >= s.recursionClamp) {
          ExpandProgress(scene, s, levelSub, sel, j + 1, objects', children');
        }
      }
    }
  }

  /** After one level's loop over a descending selection the fragment list
      lacks exactly the processed positions (when originals are removed) and
      the new fragments are the processed pairs' fractures in order. */
  lemma {:induction false} ExpandState(scene: Scene, s: Settings, levelSub: nat, sel: seq<Pair>, j: nat,
                                       orig: seq<ObjectId>, objects: seq<ObjectId>, children: seq<ObjectId>)
    requires PairsOf(sel, orig) && Descending(sel)
    requires j <= |sel|
    requires RoundState(scene, s, levelSub, sel, j, orig, objects, children)
    ensures var r := ExpandFrom(scene, s, levelSub, sel, j, objects, children);
      RoundState(scene, s, levelSub, sel, r.processed, orig, r.objects, r.children)
    decreases |sel| - j
  {
    if j < |sel| && FractureOf(scene, s, levelSub, sel[j]).Ok? {
      RoundStep(scene, s, levelSub, sel, j, orig, objects, children);
      var objects' := if s.useRemoveOriginal then Delete(objects, sel[j].index) else objects;
      var children' := children + Fragments(scene, s, levelSub, sel[j]);
      var stop := s.recursionClamp != 0 && |objects'| + |children'| >= s.recursionClamp;
      ExpandUnfold(scene, s, levelSub, sel, j, objects, children);
      if stop {
        assert ExpandFrom(scene, s, levelSub, sel, j, objects, children) == Round(objects', children', j + 1, None);
      } else {
        ExpandState(scene, s, levelSub, sel, j + 1, orig, objects', children');
        assert ExpandFrom(scene, s, levelSub, sel, j, objects, children)
               == ExpandFrom(scene, s, levelSub, sel, j + 1, objects', children');
      }
    }
  }

  /** After pair `j` the loop state moves on and the two lists hold
      `CountAfter(j + 1)` fragments. */
  lemma ClampStep(scene: Scene, s: Settings, levelSub: nat, sel: seq<Pair>, j: nat,
                  orig: seq<ObjectId>, objects: seq<ObjectId>, children: seq<ObjectId>)
    requires PairsOf(sel, orig) && Descending(sel)
    requires j < |sel|
    requires RoundState(scene, s, levelSub, sel, j, orig, objects, children)
    ensures var objects' := if s.useRemoveOriginal then Delete(objects, sel[j].index) else objects;
      var children' := children + Fragments(scene, s, levelSub, sel[j]);
      && RoundState(scene, s, levelSub, sel, j + 1, orig, objects', children')
      && CountAfter(scene, s, levelSub, sel, orig, j + 1) == |objects'| + |children'|
  {
    RoundStep(scene, s, levelSub, sel, j, orig, objects, children);
  }

  /** One pass of the expansion loop's body, from the state after `j` pairs:
      the pair still names its fragment, a failed fracture ends the round,
      and a successful one moves the loop state to `j + 1`, where the round
      either stops on the clamp or goes on. */
  lemma ExpandBodyStep(scene: Scene, s: Settings, levelSub: nat, sel: seq<Pair>, j: nat,
                 orig: seq<ObjectId>, objects: seq<ObjectId>, children: seq<ObjectId>)
    requires PairsOf(sel, orig) && Descending(sel)
    requires j < |sel|
    requires RoundState(scene, s, levelSub, sel, j, orig, objects, children)
    ensures sel[j].index < |objects| && objects[sel[j].index] == sel[j].obj
    ensures var f := FractureOf(scene, s, levelSub, sel[j]);
      f.Err? ==> ExpandFrom(scene, s, levelSub, sel, j, objects, children) == Round(objects, children, j, Some(f.error))
    ensures var f := FractureOf(scene, s, levelSub, sel[j]);
      f.Ok? ==>
        var objects' := if s.useRemoveOriginal then Delete(objects, sel[j].index) else objects;
        var children' := children + f.value;
        && RoundState(scene, s, levelSub, sel, j + 1, orig, objects', children')
        && ExpandFrom(scene, s, levelSub, sel, j, objects, children)
           == if s.recursionClamp != 0 && |objects'| + |children'| >= s.recursionClamp
              then Round(objects', children', j + 1, None)
              else ExpandFrom(scene, s, levelSub, sel, j + 1, objects', children')
  {
    ProcessedPrefixIntact(scene, s, levelSub, sel, j, orig, objects, children);
    RoundStep(scene, s, levelSub, sel, j, orig, objects, children);
    ExpandUnfold(scene, s, levelSub, sel, j, objects, children);
  }

  /** The loop goes on past a pair only while the clamp is not reached:
      after every pair it expanded and then went past, the two lists hold
      fewer fragments than a non-zero clamp. */
  lemma {:induction false} ExpandClamp(scene: Scene, s: Settings, levelSub: nat, sel: seq<Pair>, j: nat,
                                       orig: seq<ObjectId>, objects: seq<ObjectId>, children: seq<ObjectId>)
    requires PairsOf(sel, orig) && Descending(sel)
    requires j <= |sel|
    requires RoundState(scene, s, levelSub, sel, j, orig, objects, children)
    ensures var r := ExpandFrom(scene, s, levelSub, sel, j, objects, children);
      forall m :: j < m <= r.processed && (m < r.processed || r.failed.Some?) ==>
        s.recursionClamp == 0 || CountAfter(scene, s, levelSub, sel, orig, m) < s.recursionClamp
    decreases |sel| - j
  {
    if j < |sel| {
      var f := FractureOf(scene, s, levelSub, sel[j]);
      var objects' := if s.useRemoveOriginal then Delete(objects, sel[j].index) else objects;
      var children' := children + Fragments(scene, s, levelSub, sel[j]);
      var r := ExpandFrom(scene, s, levelSub, sel, j, objects, children);
      ExpandUnfold(scene, s, levelSub, sel, j, objects, children);
      if f.Err? {
        assert r.processed == j;
      } else if s.recursionClamp != 0 && |objects'| + |children'| >= s.recursionClamp {
        assert r.processed == j + 1 && r.failed.None?;
      } else {
        ClampStep(scene, s, levelSub, sel, j, orig, objects, children);
        ExpandClamp(scene, s, levelSub, sel, j + 1, orig, objects', children');
        assert r == ExpandFrom(scene, s, levelSub, sel, j + 1, objects', children');
        forall m | j < m <= r.processed && (m < r.processed || r.failed.Some?)
          ensures s.recursionClamp == 0 || CountAfter(scene, s, levelSub, sel, orig, m) < s.recursionClamp
        {
          if m == j + 1 {
            assert CountAfter(scene, s, levelSub, sel, orig, m) == |objects'| + |children'|;
          }
        }
      }
    }
  }

  // ---------------------------------------------------------------------------
  // The level loop and `main_object`

  /** The fragment list after the levels from `levelSub` on, and the last
      level that ran to completion. */
  datatype LevelOutcome = LevelOutcome(objects: seq<ObjectId>, ran: nat)

  /** The fragment list after one level: the survivors followed by the new
      fragments, or the error of a fracture that raised. */
  function LevelStep(scene: Scene, s: Settings, levelSub: nat, objects: seq<ObjectId>)
    : Result<seq<ObjectId>, FractureError>
    requires ValidScene(scene)
  {
    var r := ExpandFrom(scene, s, levelSub, Selection(scene, s, levelSub, objects), 0, objects, []);
    if r.failed.Some? then Err(r.failed.value) else Ok(r.objects + r.children)
  }

  /** One level expands a prefix of the selection whose fractures succeed; it
      stops short of the end only on the first fracture that raises or on a
      reached clamp, and goes past a pair only while the clamp is not reached.
      The new list is the fragments not expanded (all of them when originals
      stay) followed by the fractures of the expanded ones, in order. */
  lemma LevelStepMeaning(scene: Scene, s: Settings, levelSub: nat, objects: seq<ObjectId>)
    requires ValidScene(scene)
    ensures var sel := Selection(scene, s, levelSub, objects);
      var r := ExpandFrom(scene, s, levelSub, sel, 0, objects, []);
      && (sel != [] && r.failed.None? ==> 1 <= r.processed) && r.processed <= |sel|
      && (forall m :: 0 <= m < r.processed ==> FractureOf(scene, s, levelSub, sel[m]).Ok?)
      && (r.failed.Some? ==> r.processed < |sel| && FractureOf(scene, s, levelSub, sel[r.processed]) == Err(r.failed.value))
      && (r.processed < |sel| && r.failed.None? ==>
            s.recursionClamp != 0 && |r.objects| + |r.children| >= s.recursionClamp)
      && (forall m :: 0 < m <= r.processed && (m < r.processed || r.failed.Some?) ==>
            s.recursionClamp == 0 || CountAfter(scene, s, levelSub, sel, objects, m) < s.recursionClamp)
      && |r.objects| == |objects| - (if s.useRemoveOriginal then r.processed else 0)
      && r.objects == (if s.useRemoveOriginal then Survivors(objects, IndexSet(sel[..r.processed])) else objects)
      && r.children == ChildrenOf(scene, s, levelSub, sel[..r.processed])
      && LevelStep(scene, s, levelSub, objects)
         == (if r.failed.Some? then Err(r.failed.value) else Ok(r.objects + r.children))
  {
    var sel := Selection(scene, s, levelSub, objects);
    SelectionDescending(scene, s, levelSub, objects);
    RoundStart(scene, s, levelSub, sel, objects);
    ExpandProgress(scene, s, levelSub, sel, 0, objects, []);
    ExpandState(scene, s, levelSub, sel, 0, objects, objects, []);
    ExpandClamp(scene, s, levelSub, sel, 0, objects, objects, []);
  }

  /** With every fragment chosen, originals removed, no clamp and no
      fracture raising, a level replaces each fragment by its own fragments,
      from the last to the first. */
  lemma FullLevelReplacesAll(scene: Scene, s: Settings, levelSub: nat, objects: seq<ObjectId>)
    requires ValidScene(scene)
    requires s.recursionChance == 1.0 && s.useRemoveOriginal && s.recursionClamp == 0
    requires forall k :: 0 <= k < |objects| ==> scene.fracture(objects[k], levelSub, s.recursionSourceLimit).Ok?
    ensures LevelStep(scene, s, levelSub, objects) == Ok(ChildrenOf(scene, s, levelSub, Reverse(Enumerate(objects))))
  {
    var sel := Selection(scene, s, levelSub, objects);
    SelectionDescending(scene, s, levelSub, objects);
    LevelStepMeaning(scene, s, levelSub, objects);
    assert sel == Reverse(Enumerate(objects));
    var r := ExpandFrom(scene, s, levelSub, sel, 0, objects, []);
    assert r.processed == |sel|;
    assert sel[..r.processed] == sel;
    assert |r.objects| == 0;
    assert [] + r.children == r.children;
  }

  /** `for level_sub in range(levelSub, recursion + 1)`: the levels run in
      turn until one raises or leaves more fragments than a non-zero clamp;
      the outcome counts the levels run. */
  function Levels(scene: Scene, s: Settings, levelSub: nat, objects: seq<ObjectId>)
    : (r: Result<LevelOutcome, FractureError>)
    requires ValidScene(scene)
    requires 1 <= levelSub <= s.recursion + 1
    ensures r.Ok? ==> levelSub - 1 <= r.value.ran <= s.recursion
    ensures r.Ok? && r.value.ran < s.recursion ==>
      s.recursionClamp != 0 && |r.value.objects| > s.recursionClamp
    decreases s.recursion + 1 - levelSub
  {
    if levelSub > s.recursion then Ok(LevelOutcome(objects, s.recursion))
    else
      var next := LevelStep(scene, s, levelSub, objects);
      if next.Err? then Err(next.error)
      else if s.recursionClamp != 0 && |next.value| > s.recursionClamp then Ok(LevelOutcome(next.value, levelSub))
      else Levels(scene, s, levelSub + 1, next.value)
  }

  /** One level: a level that raises ends the recursion with its error, a
      level that leaves more fragments than a non-zero clamp is the last one
      run, and otherwise the next level follows. */
  lemma LevelsUnfold(scene: Scene, s: Settings, levelSub: nat, objects: seq<ObjectId>)
    requires ValidScene(scene)
    requires 1 <= levelSub <= s.recursion
    ensures var next := LevelStep(scene, s, levelSub, objects);
      && (next.Err? ==> Levels(scene, s, levelSub, objects) == Err(next.error))
      && (next.Ok? && s.recursionClamp != 0 && |next.value| > s.recursionClamp ==>
            Levels(scene, s, levelSub, objects) == Ok(LevelOutcome(next.value, levelSub)))
      && (next.Ok? && !(s.recursionClamp != 0 && |next.value| > s.recursionClamp) ==>
            Levels(scene, s, levelSub, objects) == Levels(scene, s, levelSub + 1, next.value))
  {
  }

  /** What `main_object(obj, level)` returns: the host's fracture of `obj`,
      with the recursion source limit on recursive levels, followed at level
      0 by the recursion levels; the first error raised on the way. */
  function MainObjectSpec(scene: Scene, s: Settings, obj: ObjectId, level: nat): Result<seq<ObjectId>, FractureError>
    requires ValidScene(scene)
  {
    var limit := if level != 0 then s.recursionSourceLimit else s.sourceLimit;
    var first := scene.fracture(obj, level, limit);
    if first.Err? || level != 0 then first
    else
      var levels := Levels(scene, s, 1, first.value);
      if levels.Err? then Err(levels.error) else Ok(levels.value.objects)
  }

  /** `main_object`: fracture `obj`, then at level 0 re-fracture the selected
      fragments level by level, calling itself one level down. The interior
      pass runs exactly when level 0 finishes with one of its options on. */
  method MainObject(scene: Scene, s: Settings, obj: ObjectId, level: nat)
    returns (r: Result<seq<ObjectId>, FractureError>, handleInterior: bool)
    requires ValidScene(scene)
    ensures r == MainObjectSpec(scene, s, obj, level)
    ensures handleInterior <==> r.Ok? && level == 0 && (s.interiorVgroup || s.sharpEdges)
    decreases if level == 0 then 2 else 0
  {
    var limit := if level != 0 then s.recursionSourceLimit else s.sourceLimit;
    var first := scene.fracture(obj, level, limit);
    if first.Err? {
      return first, false;
    }
    var objects := first.value;
    if level == 0 {
      var levelSub := 1;
      while levelSub <= s.recursion
        invariant 1 <= levelSub <= s.recursion + 1
        invariant Levels(scene, s, levelSub, objects) == Levels(scene, s, 1, first.value)
        decreases s.recursion + 1 - levelSub
      {
        var round := ExpandLevel(scene, s, levelSub, objects);
        LevelsUnfold(scene, s, levelSub, objects);
        ghost var next := LevelStep(scene, s, levelSub, objects);
        assert next == if round.failed.Some? then Err(round.failed.value) else Ok(round.objects + round.children);
        if round.failed.Some? {
          return Err(round.failed.value), false;
        }
        objects := round.objects + round.children;
        if s.recursionClamp != 0 && |objects| > s.recursionClamp {
          assert Levels(scene, s, 1, first.value) == Ok(LevelOutcome(objects, levelSub));
          break;
        }
        levelSub := levelSub + 1;
      }
    }
    r := Ok(objects);
    handleInterior := level == 0 && (s.interiorVgroup || s.sharpEdges);
  }

  /** The body of one recursion level: choose the fragments, then walk them
      from the highest index down, fracturing each one level down and
      removing it when originals are removed, until the clamp is reached or a
      fracture raises. */
  method ExpandLevel(scene: Scene, s: Settings, levelSub: nat, objects: seq<ObjectId>) returns (r: Round)
    requires ValidScene(scene) && levelSub >= 1
    ensures r == ExpandFrom(scene, s, levelSub, Selection(scene, s, levelSub, objects), 0, objects, [])
    decreases 1
  {
    var sel := Selection(scene, s, levelSub, objects);
    SelectionDescending(scene, s, levelSub, objects);
    RoundStart(scene, s, levelSub, sel, objects);
    var rest := objects;
    var recursive: seq<ObjectId> := [];
    var j := 0;
    while j < |sel|
      invariant j <= |sel|
      invariant RoundState(scene, s, levelSub, sel, j, objects, rest, recursive)
      invariant ExpandFrom(scene, s, levelSub, sel, j, rest, recursive)
                == ExpandFrom(scene, s, levelSub, sel, 0, objects, [])
      decreases |sel| - j
    {
      var p := sel[j];
      ExpandBodyStep(scene, s, levelSub, sel, j, objects, rest, recursive);
      assert rest[p.index] == p.obj;
      var sub, _ := MainObject(scene, s, p.obj, levelSub);
      assert sub == FractureOf(scene, s, levelSub, p);
      if sub.Err? {
        return Round(rest, recursive, j, Some(sub.error));
      }
      recursive := recursive + sub.value;
      if s.useRemoveOriginal {
        rest := Delete(rest, p.index);
      }
      j := j + 1;
      if s.recursionClamp != 0 && |rest| + |recursive| >= s.recursionClamp {
        break;
      }
    }
    r := Round(rest, recursive, j, None);
  }

  // ---------------------------------------------------------------------------
  // `main`

  /** A selected editable object and whether it is a mesh. */
  datatype Selected = Selected(obj: ObjectId, isMesh: bool)

  /** The error `main` raises at a selected object: "No MESH object
      selected." for anything but a mesh, otherwise whatever its
      `main_object` raises. */
  function Failure(scene: Scene, s: Settings, x: Selected): Option<FractureError>
    requires ValidScene(scene)
  {
    if !x.isMesh then Some(NoMeshSelected)
    else
      var r := MainObjectSpec(scene, s, x.obj, 0);
      if r.Err? then Some(r.error) else None
  }

  /** `objs + r` when `r` succeeded. */
  function Prepend(objs: seq<ObjectId>, r: Result<seq<ObjectId>, FractureError>): Result<seq<ObjectId>, FractureError>
  {
    if r.Err? then r else Ok(objs + r.value)
  }

  /** What `main` collects before post-processing: the fragments of every
      selected object in order. It fails exactly when some selected object
      fails, with the error of the first one that does. */
  function MainSpec(scene: Scene, s: Settings, selected: seq<Selected>): (r: Result<seq<ObjectId>, FractureError>)
    requires ValidScene(scene)
    ensures r.Err? <==> exists k :: 0 <= k < |selected| && Failure(scene, s, selected[k]).Some?
    decreases |selected|
  {
    if selected == [] then Ok([])
    else
      var f := Failure(scene, s, selected[0]);
      if f.Some? then Err(f.value)
      else
        var rest := MainSpec(scene, s, selected[1..]);
        assert forall k :: 1 <= k < |selected| ==> selected[k] == selected[1..][k - 1];
        Prepend(MainObjectSpec(scene, s, selected[0].obj, 0).value, rest)
  }

  /** The error `main` raises is that of the first selected object that
      fails. */
  lemma {:induction false} MainSpecFirstFailure(scene: Scene, s: Settings, selected: seq<Selected>)
    requires ValidScene(scene)
    ensures var r := MainSpec(scene, s, selected);
      r.Err? ==> exists k :: 0 <= k < |selected| && Failure(scene, s, selected[k]) == Some(r.error)
                   && forall i :: 0 <= i < k ==> Failure(scene, s, selected[i]).None?
    decreases |selected|
  {
    var r := MainSpec(scene, s, selected);
    if selected != [] && Failure(scene, s, selected[0]).None? && r.Err? {
      var tail := selected[1..];
      MainSpecFirstFailure(scene, s, tail);
      assert MainSpec(scene, s, tail) == r;
      var k :| 0 <= k < |tail| && Failure(scene, s, tail[k]) == Some(r.error)
               && forall i :: 0 <= i < k ==> Failure(scene, s, tail[i]).None?;
      assert selected[k + 1] == tail[k];
      forall i | 0 <= i < k + 1
        ensures Failure(scene, s, selected[i]).None?
      {
        if i > 0 {
          assert selected[i] == tail[i - 1];
        }
      }
    }
  }

  /** `MainSpec` of a suffix, unfolded once. */
  lemma MainSpecSuffix(scene: Scene, s: Settings, selected: seq<Selected>, i: nat)
    requires ValidScene(scene) && i < |selected|
    ensures var f := Failure(scene, s, selected[i]);
      MainSpec(scene, s, selected[i..])
      == if f.Some? then Err(f.value)
         else Prepend(MainObjectSpec(scene, s, selected[i].obj, 0).value, MainSpec(scene, s, selected[i + 1..]))
  {
    assert selected[i..][0] == selected[i] && selected[i..][1..] == selected[i + 1..];
  }

  lemma PrependTwice(a: seq<ObjectId>, b: seq<ObjectId>, r: Result<seq<ObjectId>, FractureError>)
    ensures Prepend(a, Prepend(b, r)) == Prepend(a + b, r)
  {
    if r.Ok? {
      assert a + (b + r.value) == (a + b) + r.value;
    }
  }

  /** `main`: run `main_object` at level 0 for each selected object and
      collect the fragments. */
  method MainSelected(scene: Scene, s: Settings, selected: seq<Selected>) returns (r: Result<seq<ObjectId>, FractureError>)
    requires ValidScene(scene)
    ensures r == MainSpec(scene, s, selected)
  {
    var objects: seq<ObjectId> := [];
    assert selected[0..] == selected;
    var all := MainSpec(scene, s, selected);
    assert all.Ok? ==> [] + all.value == all.value;
    for i := 0 to |selected|
      invariant Prepend(objects, MainSpec(scene, s, selected[i..])) == MainSpec(scene, s, selected)
    {
      MainSpecSuffix(scene, s, selected, i);
      if !selected[i].isMesh {
        return Err(NoMeshSelected);
      }
      var more, _ := MainObject(scene, s, selected[i].obj, 0);
      if more.Err? {
        return Err(more.error);
      }
      PrependTwice(objects, more.value, MainSpec(scene, s, selected[i + 1..]));
      objects := objects + more.value;
    }
    assert selected[|selected|..] == [];
    assert objects + [] == objects;
    return Ok(objects);
  }
}
