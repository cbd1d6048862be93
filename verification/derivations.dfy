/**
 The derived policies. Every `add…`/`remove…` method of the class computes new settings from the
 stored ones and hands them, with the flags, back to the constructor; the original policy is never
 changed. The results here are stated without the constructor: as one write to the settings.
 */
module Derivations {
  import opened Optional
  import opened SourceList
  import opened SettingsMap
  import opened ContentSecurityPolicy

  /** The source-list method `changeItemToSrc` dispatches to, with its argument. */
  datatype Change =
    | AddItem(item: string)
    | RemoveItem(item: string)
    | AddItems(items: seq<string>)
    | RemoveItems(items: seq<string>)

  /** Calls the source-list method `c` names on `l`. */
  function Apply(c: Change, l: seq<string>): seq<string>
  {
    match c
    case AddItem(x) => Add(l, x)
    case RemoveItem(x) => Remove(l, x)
    case AddItems(xs) => AddList(l, xs)
    case RemoveItems(xs) => RemoveList(l, xs)
  }

  /** The list in effect for directive `d`: what is stored, or the seed when `d` is not stored. */
  function Current(p: Policy, d: string): seq<string>
  {
    LookupOr(p.settings, d, Seed(p.flags))
  }

  /**
   What a change does to the list in effect, once the constructor has run again: under auto-self
   `'self'` stays in front and cannot be removed.
   */
  function Effect(f: Flags, c: Change, cur: seq<string>): seq<string>
  {
    match c
    case AddItem(x) => Add(cur, x)
    case RemoveItem(x) => if f.autoSelf && x == Self then cur else Remove(cur, x)
    case AddItems(xs) => AddList(cur, xs)
    case RemoveItems(xs) => RemoveList(cur, if f.autoSelf then Remove(xs, Self) else xs)
  }

  /** Under auto-self, a change to a stored list followed by the constructor's merge is `Effect`. */
  lemma EffectStored(f: Flags, c: Change, l: seq<string>)
    requires f.autoSelf
    requires Distinct(l) && |l| > 0 && l[0] == Self
    ensures Reseed(f, Apply(c, l)) == Effect(f, c, l)
  {
    DistinctTail(l);
    var t := l[1..];
    assert l == [Self] + t;
    match c
    case AddItem(x) =>
      ReseedFixed(f, Add(l, x));
    case RemoveItem(x) =>
      if x == Self {
        assert Remove(l, Self) == Remove(t, Self) == t;
      } else {
        assert Remove(l, x) == [Self] + Remove(t, x);
        ReseedFixed(f, Remove(l, x));
      }
    case AddItems(xs) =>
      ReseedFixed(f, AddList(l, xs));
    case RemoveItems(xs) =>
      var ys := Remove(xs, Self);
      RemoveListAgree(t, xs, ys);
      assert RemoveList(l, ys) == [Self] + RemoveList(t, ys);
      assert Remove(RemoveList(l, xs), Self) == RemoveList(t, xs) by {
        if Self in xs {
          assert RemoveList(l, xs) == RemoveList(t, xs);
        } else {
          assert RemoveList(l, xs) == [Self] + RemoveList(t, xs);
        }
      }
  }

  /** Under auto-self, a change to a directive not yet stored (an empty list) followed by the merge is `Effect` on the seed. */
  lemma EffectFresh(f: Flags, c: Change)
    requires f.autoSelf
    ensures Reseed(f, Apply(c, [])) == Effect(f, c, [Self])
  {
    match c
    case AddItem(x) =>
      if x == Self {
        assert Add([Self], x) == [Self];
      } else {
        assert Remove([x], Self) == [x];
      }
    case RemoveItem(x) =>
    case AddItems(xs) =>
      AddListRemove([], xs, Self);
      AddListHead(Self, [], xs);
      assert [Self] + [] == [Self];
    case RemoveItems(xs) =>
      assert RemoveList([Self], Remove(xs, Self)) == [Self] + RemoveList([], Remove(xs, Self));
  }

  /** The list `changeItemToSrc` hands to the constructor becomes `Effect` of the list in effect. */
  lemma EffectReseed(p: Policy, d: string, c: Change)
    requires Valid(p)
    ensures Distinct(Apply(c, LookupOr(p.settings, d, [])))
    ensures Reseed(p.flags, Apply(c, LookupOr(p.settings, d, []))) == Effect(p.flags, c, Current(p, d))
  {
    var f := p.flags;
    match Lookup(p.settings, d)
    case Some(l) =>
      assert Entry(d, l) in p.settings;
      if f.autoSelf {
        EffectStored(f, c, l);
      }
    case None =>
      if f.autoSelf {
        EffectFresh(f, c);
      }
  }

  /** A lookup in a valid policy's settings survives the constructor's merge. */
  lemma ReseedStored(p: Policy, k: string)
    requires Valid(p)
    ensures Reseeded(p.flags, Lookup(p.settings, k)) == Lookup(p.settings, k)
  {
    match Lookup(p.settings, k)
    case Some(l) =>
      assert Entry(k, l) in p.settings;
      ReseedFixed(p.flags, l);
    case None =>
  }

  /** Running the constructor on a valid policy's settings after one write: the write, merged. */
  lemma RebuildAfterPut(p: Policy, d: string, u: seq<string>)
    requires Valid(p) && d in Types && Distinct(u)
    ensures New(AsArgs(Put(p.settings, d, u)), p.flags) == Policy(Put(p.settings, d, Reseed(p.flags, u)), p.flags)
  {
    var f := p.flags;
    var st := Put(p.settings, d, u);
    assert Names(st)[..|p.settings|] == Names(p.settings);
    assert Names(st)[0] == Names(p.settings)[0];
    forall e | e in st ensures e.name in Types && Distinct(e.sources) {
      if e in p.settings {
        assert EntryOk(e, f.autoSelf);
      }
    }
    Rebuild(st, f);
    var r := New(AsArgs(st), f);
    var want := Put(p.settings, d, Reseed(f, u));
    forall k ensures Lookup(r.settings, k) == Lookup(want, k) {
      ReseedStored(p, k);
    }
    Extensionality(r.settings, want);
  }

  /**
   `changeItemToSrc`: for a known directive, the stored list (an empty one when `d` is not
   stored) gets the change and the constructor runs again; an unknown directive leaves the
   policy as it is.
   */
  function ChangeItemToSrc(p: Policy, d: string, c: Change): (r: Policy)
    ensures d !in Types ==> r == p
    ensures d in Types ==> Valid(r) && r.flags == p.flags
    ensures Valid(p) && d in Types ==> r == Policy(Put(p.settings, d, Effect(p.flags, c, Current(p, d))), p.flags)
  {
    if d !in Types then p
    else
      var u := Apply(c, LookupOr(p.settings, d, []));
      var r := New(AsArgs(Put(p.settings, d, u)), p.flags);
      assert Valid(p) ==> r == Policy(Put(p.settings, d, Effect(p.flags, c, Current(p, d))), p.flags) by {
        if Valid(p) {
          EffectReseed(p, d, c);
          RebuildAfterPut(p, d, u);
        }
      }
      r
  }

  /** `addItemToSrc`: appends `x` to the directive's list unless it is already there. */
  function AddItemToSrc(p: Policy, d: string, x: string): (r: Policy)
    ensures d !in Types ==> r == p
    ensures Valid(p) ==> Valid(r) && r.flags == p.flags
    ensures Valid(p) && d in Types ==> r == Policy(Put(p.settings, d, Add(Current(p, d), x)), p.flags)
  {
    ChangeItemToSrc(p, d, AddItem(x))
  }

  /** `removeItemToSrc`: drops `x` from the directive's list, except `'self'` under auto-self. */
  function RemoveItemToSrc(p: Policy, d: string, x: string): (r: Policy)
    ensures d !in Types ==> r == p
    ensures Valid(p) ==> Valid(r) && r.flags == p.flags
    ensures Valid(p) && d in Types && !(p.flags.autoSelf && x == Self) ==> r == Policy(Put(p.settings, d, Remove(Current(p, d), x)), p.flags)
    ensures Valid(p) && d in Types && p.flags.autoSelf && x == Self ==> r == Policy(Put(p.settings, d, Current(p, d)), p.flags)
  {
    ChangeItemToSrc(p, d, RemoveItem(x))
  }

  /** `addListToSrc`: appends the items not yet present, in first-seen order. */
  function AddListToSrc(p: Policy, d: string, xs: seq<string>): (r: Policy)
    ensures d !in Types ==> r == p
    ensures Valid(p) ==> Valid(r) && r.flags == p.flags
    ensures Valid(p) && d in Types ==> r == Policy(Put(p.settings, d, AddList(Current(p, d), xs)), p.flags)
  {
    ChangeItemToSrc(p, d, AddItems(xs))
  }

  /** `removeListToSrc`: drops every listed item, except `'self'` under auto-self. */
  function RemoveListToSrc(p: Policy, d: string, xs: seq<string>): (r: Policy)
    ensures d !in Types ==> r == p
    ensures Valid(p) ==> Valid(r) && r.flags == p.flags
    ensures Valid(p) && d in Types ==> r == Policy(Put(p.settings, d, RemoveList(Current(p, d), if p.flags.autoSelf then Remove(xs, Self) else xs)), p.flags)
  {
    var r := ChangeItemToSrc(p, d, RemoveItems(xs));
    assert Effect(p.flags, RemoveItems(xs), Current(p, d)) == RemoveList(Current(p, d), if p.flags.autoSelf then Remove(xs, Self) else xs);
    r
  }

  /** `addUnsafeInline`: `'unsafe-inline'` is in the directive's list afterwards. */
  function AddUnsafeInline(p: Policy, d: string): (r: Policy)
    ensures d !in Types ==> r == p
    ensures Valid(p) ==> Valid(r) && r.flags == p.flags
    ensures Valid(p) && d in Types ==> r == Policy(Put(p.settings, d, Add(Current(p, d), UnsafeInline)), p.flags)
    ensures Valid(p) && d in Types ==> Lookup(r.settings, d).Some? && UnsafeInline in Lookup(r.settings, d).value
  {
    AddItemToSrc(p, d, UnsafeInline)
  }

  /** `removeUnsafeInline`: `'unsafe-inline'` is not in the directive's list afterwards. */
  function RemoveUnsafeInline(p: Policy, d: string): (r: Policy)
    ensures d !in Types ==> r == p
    ensures Valid(p) ==> Valid(r) && r.flags == p.flags
    ensures Valid(p) && d in Types ==> r == Policy(Put(p.settings, d, Remove(Current(p, d), UnsafeInline)), p.flags)
    ensures Valid(p) && d in Types ==> Lookup(r.settings, d).Some? && UnsafeInline !in Lookup(r.settings, d).value
  {
    RemoveItemToSrc(p, d, UnsafeInline)
  }

  /** Adding an item a stored directive lacks and removing it again gives back the same policy. */
  lemma AddThenRemoveItem(p: Policy, d: string, x: string)
    requires Valid(p) && d in Names(p.settings) && x !in Current(p, d)
    ensures RemoveItemToSrc(AddItemToSrc(p, d, x), d, x) == p
  {
    var cur := Current(p, d);
    assert Entry(d, cur) in p.settings;
    assert d in Types;
    var q := AddItemToSrc(p, d, x);
    assert Current(q, d) == Add(cur, x);
    assert !(p.flags.autoSelf && x == Self) by {
      if p.flags.autoSelf {
        assert cur[0] == Self;
      }
    }
    AddThenRemove(cur, x);
    PutTwice(p.settings, d, Add(cur, x), cur);
    PutStored(p.settings, d, cur);
  }

  /** `addUnsafeInline` then `removeUnsafeInline` on a stored directive without `'unsafe-inline'` changes nothing. */
  lemma UnsafeInlineRoundTrip(p: Policy, d: string)
    requires Valid(p) && d in Names(p.settings) && UnsafeInline !in Current(p, d)
    ensures RemoveUnsafeInline(AddUnsafeInline(p, d), d) == p
  {
    AddThenRemoveItem(p, d, UnsafeInline);
  }

  /**
   Adding an item to a known directive that is not stored yet and removing it again does NOT give
   back the policy: the directive is now stored, holding the bare seed (`'self'` under auto-self).
   */
  lemma AddThenRemoveFresh(p: Policy, d: string, x: string)
    requires Valid(p) && d in Types && d !in Names(p.settings)
    ensures RemoveItemToSrc(AddItemToSrc(p, d, x), d, x) == Policy(Put(p.settings, d, Seed(p.flags)), p.flags)
  {
    var seed := Seed(p.flags);
    assert Current(p, d) == seed;
    var q := AddItemToSrc(p, d, x);
    assert Current(q, d) == Add(seed, x);
    if p.flags.autoSelf && x == Self {
      assert Add(seed, x) == seed;
      PutTwice(p.settings, d, seed, seed);
    } else {
      assert x !in seed;
      AddThenRemove(seed, x);
      PutTwice(p.settings, d, Add(seed, x), seed);
    }
  }

  /** Adding the same item twice is adding it once. */
  lemma AddItemTwice(p: Policy, d: string, x: string)
    requires Valid(p)
    ensures AddItemToSrc(AddItemToSrc(p, d, x), d, x) == AddItemToSrc(p, d, x)
  {
    if d in Types {
      var cur := Current(p, d);
      var q := AddItemToSrc(p, d, x);
      assert Current(q, d) == Add(cur, x);
      AddIdempotent(cur, x);
      PutTwice(p.settings, d, Add(cur, x), Add(cur, x));
    }
  }

  /** Under auto-self, removing `'self'` from a stored directive changes nothing. */
  lemma RemoveSelfKept(p: Policy, d: string)
    requires Valid(p) && p.flags.autoSelf && d in Names(p.settings)
    ensures RemoveItemToSrc(p, d, Self) == p
  {
    var cur := Current(p, d);
    assert Entry(d, cur) in p.settings;
    PutStored(p.settings, d, cur);
  }

  /** The argument of `addMap`/`removeMap`: directive name to an array of sources, in array order. */
  type SourceMap = seq<(string, seq<string>)>

  /** The function `changeMap` applies: `addList` (then `add('self')` under auto-self), or `removeList`. */
  datatype MapChange = AddAll(withSelf: bool) | RemoveAll

  function ApplyMap(c: MapChange, l: seq<string>, v: seq<string>): seq<string>
  {
    match c
    case AddAll(withSelf) => if withSelf then Add(AddList(l, v), Self) else AddList(l, v)
    case RemoveAll => RemoveList(l, v)
  }

  /** A stored entry the constructor accepts back: a known name and a duplicate-free list. */
  predicate Storable(e: Entry) {
    e.name in Types && Distinct(e.sources)
  }

  /** The loop of `changeMap`: each known key gets the function of its stored list (empty when absent) and its value. */
  function Touch(st: Settings, m: SourceMap, c: MapChange): (r: Settings)
    ensures Names(r) == AddList(Names(st), KnownKeys(m))
    ensures Distinct(Keys(m)) ==> forall k {:trigger Lookup(r, k)} :: Lookup(r, k) == Touched(st, m, c, k)
    ensures (forall e {:trigger e in st} :: e in st ==> Storable(e)) ==> forall e {:trigger e in r} :: e in r ==> Storable(e)
    decreases |m|
  {
    if m == [] then st
    else
      var k, v := m[0].0, m[0].1;
      var st' := if k in Types then Put(st, k, ApplyMap(c, LookupOr(st, k, []), v)) else st;
      var r := Touch(st', m[1..], c);
      KnownStep(Names(st), m, Names(st'));
      TouchStepLookup(st, m, c, st', r);
      TouchStepOk(st, m, c, st', r);
      r
  }

  /** The list `changeMap`'s loop leaves under `k`, for a map with unique keys. */
  function Touched(st: Settings, m: SourceMap, c: MapChange, k: string): Option<seq<string>>
  {
    if k in Types && Assigned(m, k).Some?
    then Some(ApplyMap(c, LookupOr(st, k, []), Assigned(m, k).value))
    else Lookup(st, k)
  }

  /** One iteration of `changeMap`'s loop, for the stored lists. */
  lemma TouchStepLookup(st: Settings, m: SourceMap, c: MapChange, st': Settings, r: Settings)
    requires m != []
    requires st' == if m[0].0 in Types then Put(st, m[0].0, ApplyMap(c, LookupOr(st, m[0].0, []), m[0].1)) else st
    requires Distinct(Keys(m[1..])) ==> forall k {:trigger Lookup(r, k)} :: Lookup(r, k) == Touched(st', m[1..], c, k)
    ensures Distinct(Keys(m)) ==> forall k {:trigger Lookup(r, k)} :: Lookup(r, k) == Touched(st, m, c, k)
  {
    if Distinct(Keys(m)) {
      assert Keys(m) == [m[0].0] + Keys(m[1..]);
      DistinctTail(Keys(m));
      forall k ensures Lookup(r, k) == Touched(st, m, c, k) {
        assert Lookup(r, k) == Touched(st', m[1..], c, k);
        if k == m[0].0 {
          assert Assigned(m[1..], k) == None;
        }
      }
    }
  }

  /** One iteration of `changeMap`'s loop, for the entries the constructor accepts back. */
  lemma TouchStepOk(st: Settings, m: SourceMap, c: MapChange, st': Settings, r: Settings)
    requires m != []
    requires st' == if m[0].0 in Types then Put(st, m[0].0, ApplyMap(c, LookupOr(st, m[0].0, []), m[0].1)) else st
    requires (forall e {:trigger e in st'} :: e in st' ==> Storable(e)) ==> forall e {:trigger e in r} :: e in r ==> Storable(e)
    ensures (forall e {:trigger e in st} :: e in st ==> Storable(e)) ==> forall e {:trigger e in r} :: e in r ==> Storable(e)
  {
    var k := m[0].0;
    if (forall e {:trigger e in st} :: e in st ==> Storable(e)) && k in Types {
      match Lookup(st, k)
      case Some(l) =>
        assert Entry(k, l) in st;
      case None =>
    }
  }

  /**
   `changeMap`: the loop over the map, then the constructor on the result with `auto-self` set to
   `forceSelf`.
   */
  function ChangeMap(p: Policy, m: SourceMap, c: MapChange, forceSelf: bool): (r: Policy)
    ensures Valid(r)
    ensures r.flags == p.flags.(autoSelf := forceSelf)
  {
    New(AsArgs(Touch(p.settings, m, c)), p.flags.(autoSelf := forceSelf))
  }

  /** The constructor run on the touched settings of a valid policy keeps their names and merges each list. */
  lemma RebuildTouched(p: Policy, m: SourceMap, c: MapChange, f: Flags)
    requires Valid(p)
    ensures Names(New(AsArgs(Touch(p.settings, m, c)), f).settings) == AddList(Names(p.settings), KnownKeys(m))
    ensures forall k {:trigger Lookup(New(AsArgs(Touch(p.settings, m, c)), f).settings, k)} :: Lookup(New(AsArgs(Touch(p.settings, m, c)), f).settings, k) == Reseeded(f, Lookup(Touch(p.settings, m, c), k))
  {
    var st := Touch(p.settings, m, c);
    assert Names(st)[..|p.settings|] == Names(p.settings);
    assert Names(st)[0] == Names(p.settings)[0];
    forall e | e in p.settings ensures Storable(e) {
      assert EntryOk(e, p.flags.autoSelf);
    }
    Rebuild(st, f);
  }

  /** Under the policy's own flags, `addList` then `add('self')`, merged, is adding to the list in effect. */
  lemma AddAllReseed(p: Policy, k: string, v: seq<string>)
    requires Valid(p)
    ensures Reseed(p.flags, ApplyMap(AddAll(p.flags.autoSelf), LookupOr(p.settings, k, []), v)) == AddList(Current(p, k), v)
  {
    var f := p.flags;
    if f.autoSelf {
      match Lookup(p.settings, k)
      case Some(l) =>
        assert Entry(k, l) in p.settings;
        assert AddList(l, v)[..|l|] == l;
        assert Self in AddList(l, v);
        ReseedFixed(f, AddList(l, v));
      case None =>
        RemoveAfterAdd(AddList([], v), Self);
        AddListRemove([], v, Self);
        AddListHead(Self, [], v);
        assert [Self] + [] == [Self];
    }
  }

  /**
   `addMap`: every known key of the map gets its items added to its list in effect; other
   directives, unknown keys and the flags stay as they are.
   */
  function AddMap(p: Policy, m: SourceMap): (r: Policy)
    ensures Valid(r) && r.flags == p.flags
    ensures Valid(p) ==> Names(r.settings) == AddList(Names(p.settings), KnownKeys(m))
    ensures Valid(p) && Distinct(Keys(m)) ==> forall k {:trigger Lookup(r.settings, k)} :: Lookup(r.settings, k) == MapAdded(p, m, k)
  {
    var r := ChangeMap(p, m, AddAll(p.flags.autoSelf), p.flags.autoSelf);
    assert Valid(p) ==> AddMapFacts(p, m, r) by {
      if Valid(p) {
        AddMapRebuilt(p, m);
      }
    }
    r
  }

  /** The two facts `addMap` promises about a valid policy. */
  ghost predicate AddMapFacts(p: Policy, m: SourceMap, r: Policy) {
    && Names(r.settings) == AddList(Names(p.settings), KnownKeys(m))
    && (Distinct(Keys(m)) ==> forall k {:trigger Lookup(r.settings, k)} :: Lookup(r.settings, k) == MapAdded(p, m, k))
  }

  lemma AddMapRebuilt(p: Policy, m: SourceMap)
    requires Valid(p)
    ensures AddMapFacts(p, m, ChangeMap(p, m, AddAll(p.flags.autoSelf), p.flags.autoSelf))
  {
    var c := AddAll(p.flags.autoSelf);
    var r := ChangeMap(p, m, c, p.flags.autoSelf);
    assert p.flags.(autoSelf := p.flags.autoSelf) == p.flags;
    RebuildTouched(p, m, c, p.flags);
    if Distinct(Keys(m)) {
      forall k ensures Lookup(r.settings, k) == MapAdded(p, m, k) {
        if k in Types && Assigned(m, k).Some? {
          AddAllReseed(p, k, Assigned(m, k).value);
        } else {
          ReseedStored(p, k);
        }
      }
    }
  }

  /** What `addMap` leaves under `k`: the map's items added to the list in effect, for a known key of the map. */
  function MapAdded(p: Policy, m: SourceMap, k: string): Option<seq<string>>
  {
    if k in Types && Assigned(m, k).Some?
    then Some(AddList(Current(p, k), Assigned(m, k).value))
    else Lookup(p.settings, k)
  }

  /**
   `removeMap`: every known key of the map has its items removed (`'self'` included) and
   `auto-self` is switched off; other directives and unknown keys stay as they are.
   */
  function RemoveMap(p: Policy, m: SourceMap): (r: Policy)
    ensures Valid(r) && r.flags == p.flags.(autoSelf := false)
    ensures Valid(p) ==> Names(r.settings) == AddList(Names(p.settings), KnownKeys(m))
    ensures Valid(p) && Distinct(Keys(m)) ==> forall k {:trigger Lookup(r.settings, k)} :: Lookup(r.settings, k) == MapRemoved(p, m, k)
  {
    var r := ChangeMap(p, m, RemoveAll, false);
    assert Valid(p) ==> RemoveMapFacts(p, m, r) by {
      if Valid(p) {
        RemoveMapRebuilt(p, m);
      }
    }
    r
  }

  /** The two facts `removeMap` promises about a valid policy. */
  ghost predicate RemoveMapFacts(p: Policy, m: SourceMap, r: Policy) {
    && Names(r.settings) == AddList(Names(p.settings), KnownKeys(m))
    && (Distinct(Keys(m)) ==> forall k {:trigger Lookup(r.settings, k)} :: Lookup(r.settings, k) == MapRemoved(p, m, k))
  }

  lemma RemoveMapRebuilt(p: Policy, m: SourceMap)
    requires Valid(p)
    ensures RemoveMapFacts(p, m, ChangeMap(p, m, RemoveAll, false))
  {
    RebuildTouched(p, m, RemoveAll, p.flags.(autoSelf := false));
  }

  /** What `removeMap` leaves under `k`: the stored list (empty when absent) without the map's items, for a known key of the map. */
  function MapRemoved(p: Policy, m: SourceMap, k: string): Option<seq<string>>
  {
    if k in Types && Assigned(m, k).Some?
    then Some(RemoveList(LookupOr(p.settings, k, []), Assigned(m, k).value))
    else Lookup(p.settings, k)
  }
}
