/**
 The content security policy value: settings (directive name to source list, in PHP array order)
 and the two flags `auto-self` and `report-only`. The constructor normalises caller input; every
 derivation computes new settings and runs the constructor again.
 */
module ContentSecurityPolicy {
  import opened Optional
  import opened SourceList
  import opened SettingsMap
  import Text

  const DefaultSrc: string := "default-src"

  /** The fetch directives the policy stores; any other name is dropped. */
  const Types: seq<string> := [
    "default-src", "script-src", "style-src", "img-src", "font-src", "media-src", "object-src",
    "form-action", "connect-src", "frame-src", "child-src", "worker-src", "manifest-src"
  ]

  const Self: string := "'self'"
  const UnsafeInline: string := "'unsafe-inline'"

  datatype Flags = Flags(autoSelf: bool, reportOnly: bool)

  /** The flags a policy gets when the caller passes none. */
  const DefaultFlags: Flags := Flags(true, false)

  /** A caller-supplied value for one directive: a space-separated string, an array, or a source list. */
  datatype SourceInput =
    | SpaceSeparated(text: string)
    | Array(items: seq<string>)
    | UniqueList(list: seq<string>)

  /** Constructor arguments: directive name to value, in array order. */
  type Args = seq<(string, SourceInput)>

  datatype Policy = Policy(settings: Settings, flags: Flags)

  /** The values a caller input stands for; a string is split on single spaces. */
  function Values(v: SourceInput): seq<string>
  {
    match v
    case SpaceSeparated(t) => Text.Explode(t, ' ')
    case Array(xs) => xs
    case UniqueList(l) => l
  }

  /** What every stored list starts from: `'self'` under auto-self, nothing otherwise. */
  function Seed(f: Flags): seq<string>
  {
    if f.autoSelf then [Self] else []
  }

  /** The constructor's merge of caller values into a fresh seeded list. */
  function Merge(seed: seq<string>, vals: seq<string>): seq<string>
  {
    AddList(seed, seed + vals)
  }

  /** The keys of an association list, in order. */
  function Keys<V>(m: seq<(string, V)>): (ks: seq<string>)
    ensures |ks| == |m|
    ensures forall i {:trigger ks[i]} :: 0 <= i < |m| ==> ks[i] == m[i].0
  {
    if m == [] then [] else [m[0].0] + Keys(m[1..])
  }

  /** The keys that are known directive names, in order. */
  function KnownKeys<V>(m: seq<(string, V)>): (ks: seq<string>)
    ensures forall k {:trigger k in ks} :: k in ks <==> k in Keys(m) && k in Types
  {
    if m == [] then []
    else (if m[0].0 in Types then [m[0].0] else []) + KnownKeys(m[1..])
  }

  /** The value last given to key `k`, as a PHP array built from these pairs would hold it. */
  function Assigned<V>(m: seq<(string, V)>, k: string): (r: Option<V>)
    ensures r.Some? <==> k in Keys(m)
    ensures r.Some? ==> exists i {:trigger m[i]} :: 0 <= i < |m| && m[i] == (k, r.value) && LastAt(m, k, i)
  {
    if m == [] then None
    else
      var later := Assigned(m[1..], k);
      if later.Some? then
        assert exists i {:trigger m[i]} :: 0 <= i < |m| && m[i] == (k, later.value) && LastAt(m, k, i) by {
          var i' :| 0 <= i' < |m[1..]| && m[1..][i'] == (k, later.value) && LastAt(m[1..], k, i');
          assert m[i' + 1] == m[1..][i'];
          assert LastAt(m, k, i' + 1) by {
            forall j | i' + 1 < j < |m| ensures m[j].0 != k {
              assert m[j] == m[1..][j - 1];
            }
          }
        }
        later
      else if m[0].0 == k then
        assert LastAt(m, k, 0) by {
          forall j | 0 < j < |m| ensures m[j].0 != k {
            assert m[j].0 == Keys(m[1..])[j - 1];
          }
        }
        Some(m[0].1)
      else None
  }

  /** No pair after position `i` has key `k`. */
  predicate LastAt<V>(m: seq<(string, V)>, k: string, i: nat) {
    forall j {:trigger m[j]} :: i < j < |m| ==> m[j].0 != k
  }

  /** A stored entry of a policy with the given auto-self setting. */
  predicate EntryOk(e: Entry, autoSelf: bool) {
    && e.name in Types
    && Distinct(e.sources)
    && (autoSelf ==> |e.sources| > 0 && e.sources[0] == Self)
  }

  /**
   What the constructor guarantees: `default-src` is stored and first, names are unique and
   known, lists are duplicate-free, and under auto-self every list starts with `'self'`.
   */
  predicate Valid(p: Policy) {
    && |p.settings| > 0 && p.settings[0].name == DefaultSrc
    && Distinct(Names(p.settings))
    && forall e {:trigger e in p.settings} :: e in p.settings ==> EntryOk(e, p.flags.autoSelf)
  }

  /** Only known directive names are stored in a valid policy. */
  lemma ValidNames(p: Policy)
    requires Valid(p)
    ensures forall k {:trigger k in Names(p.settings)} :: k in Names(p.settings) ==> k in Types
  {
    forall k | k in Names(p.settings) ensures k in Types {
      var i :| 0 <= i < |p.settings| && Names(p.settings)[i] == k;
      assert p.settings[i] in p.settings;
    }
  }

  /** The constructor's loop over the caller's arguments. */
  function Assign(st: Settings, args: Args, f: Flags): (r: Settings)
    ensures Names(r) == AddList(Names(st), KnownKeys(args))
    ensures forall k {:trigger Lookup(r, k)} :: Lookup(r, k) == AssignedList(st, args, f, k)
    ensures (forall e {:trigger e in st} :: e in st ==> EntryOk(e, f.autoSelf)) ==> forall e {:trigger e in r} :: e in r ==> EntryOk(e, f.autoSelf)
    decreases |args|
  {
    if args == [] then st
    else
      var k, v := args[0].0, args[0].1;
      var st' := if k in Types then Put(st, k, Merge(Seed(f), Values(v))) else st;
      var r := Assign(st', args[1..], f);
      KnownStep(Names(st), args, Names(st'));
      AssignStepLookup(st, args, f, st', r);
      AssignStepOk(st, args, f, st', r);
      r
  }

  /** The list the constructor's loop leaves under `k`: the merged value of the last assignment to a known `k`, else what `st` held. */
  function AssignedList(st: Settings, args: Args, f: Flags, k: string): Option<seq<string>>
  {
    if k in Types && Assigned(args, k).Some?
    then Some(Merge(Seed(f), Values(Assigned(args, k).value)))
    else Lookup(st, k)
  }

  /** One iteration of a loop that stores each known key of `m`, for the stored names. */
  lemma KnownStep<V>(ns: seq<string>, m: seq<(string, V)>, ns': seq<string>)
    requires m != []
    requires ns' == if m[0].0 in Types then Add(ns, m[0].0) else ns
    ensures AddList(ns', KnownKeys(m[1..])) == AddList(ns, KnownKeys(m))
  {
    if m[0].0 in Types {
      assert KnownKeys(m) == [m[0].0] + KnownKeys(m[1..]);
      AddListCons(ns, m[0].0, KnownKeys(m[1..]));
    } else {
      assert KnownKeys(m) == KnownKeys(m[1..]);
    }
  }

  /** One iteration of the constructor's loop, for the stored lists. */
  lemma AssignStepLookup(st: Settings, args: Args, f: Flags, st': Settings, r: Settings)
    requires args != []
    requires st' == if args[0].0 in Types then Put(st, args[0].0, Merge(Seed(f), Values(args[0].1))) else st
    requires forall k {:trigger Lookup(r, k)} :: Lookup(r, k) == AssignedList(st', args[1..], f, k)
    ensures forall k {:trigger Lookup(r, k)} :: Lookup(r, k) == AssignedList(st, args, f, k)
  {
    forall k ensures Lookup(r, k) == AssignedList(st, args, f, k) {
      assert Lookup(r, k) == AssignedList(st', args[1..], f, k);
    }
  }

  /** One iteration of the constructor's loop, for the validity of stored entries. */
  lemma AssignStepOk(st: Settings, args: Args, f: Flags, st': Settings, r: Settings)
    requires args != []
    requires st' == if args[0].0 in Types then Put(st, args[0].0, Merge(Seed(f), Values(args[0].1))) else st
    requires (forall e {:trigger e in st'} :: e in st' ==> EntryOk(e, f.autoSelf)) ==> forall e {:trigger e in r} :: e in r ==> EntryOk(e, f.autoSelf)
    ensures (forall e {:trigger e in st} :: e in st ==> EntryOk(e, f.autoSelf)) ==> forall e {:trigger e in r} :: e in r ==> EntryOk(e, f.autoSelf)
  {
    if args[0].0 in Types {
      MergeOk(f, Values(args[0].1));
    }
  }

  /** A merged list is a valid stored list. */
  lemma MergeOk(f: Flags, vals: seq<string>)
    ensures Distinct(Merge(Seed(f), vals))
    ensures f.autoSelf ==> |Merge(Seed(f), vals)| > 0 && Merge(Seed(f), vals)[0] == Self
  {
    var r := Merge(Seed(f), vals);
    if f.autoSelf {
      assert r[..1] == [Self];
    }
  }

  /** A merged list: the seed first, then the values not in the seed, each once, in first-seen order. */
  lemma MergeShape(f: Flags, vals: seq<string>)
    ensures |Seed(f)| <= |Merge(Seed(f), vals)| && Merge(Seed(f), vals)[..|Seed(f)|] == Seed(f)
    ensures forall y {:trigger y in Merge(Seed(f), vals)} :: y in Merge(Seed(f), vals) <==> y in Seed(f) || y in vals
    ensures Distinct(Merge(Seed(f), vals))
    ensures InOrderOf(Merge(Seed(f), vals)[|Seed(f)|..], vals)
  {
    var seed := Seed(f);
    AddListConcat(seed, seed, vals);
    AddListPresent(seed, seed);
    AddListAppendsInOrder(seed, vals);
  }

  /**
   `new ContentSecurityPolicy(args, flags)`: `default-src` first with the seed, then every
   known key of `args` in first-seen order holding the seed followed by its values.
   */
  function New(args: Args, flags: Flags): (p: Policy)
    ensures Valid(p)
    ensures p.flags == flags
    ensures Names(p.settings) == AddList([DefaultSrc], KnownKeys(args))
    ensures forall k {:trigger Lookup(p.settings, k)} :: Lookup(p.settings, k) == AssignedList([Entry(DefaultSrc, Seed(flags))], args, flags, k)
  {
    var init := [Entry(DefaultSrc, Seed(flags))];
    assert Names(init) == [DefaultSrc];
    assert EntryOk(init[0], flags.autoSelf);
    var st := Assign(init, args, flags);
    assert Names(st)[..1] == [DefaultSrc];
    Policy(st, flags)
  }

  /** What the constructor does to a duplicate-free list it is handed back: under auto-self, `'self'` moves to the front. */
  function Reseed(f: Flags, l: seq<string>): seq<string>
  {
    if f.autoSelf then [Self] + Remove(l, Self) else l
  }

  /** The constructor's merge of a duplicate-free list is `Reseed`. */
  lemma MergeDistinct(f: Flags, l: seq<string>)
    requires Distinct(l)
    ensures Merge(Seed(f), l) == Reseed(f, l)
  {
    var seed := Seed(f);
    AddListConcat(seed, seed, l);
    AddListPresent(seed, seed);
    if f.autoSelf {
      AddListHead(Self, [], l);
      AddListFresh([], Remove(l, Self));
      assert [Self] + [] == [Self];
      assert [] + Remove(l, Self) == Remove(l, Self);
    } else {
      AddListFresh([], l);
      assert [] + l == l;
    }
  }

  /** A list that already has the shape of a stored list is left alone by `Reseed`. */
  lemma ReseedFixed(f: Flags, m: seq<string>)
    requires Distinct(m)
    requires f.autoSelf ==> |m| > 0 && m[0] == Self
    ensures Reseed(f, m) == m
  {
    if f.autoSelf {
      DistinctTail(m);
      assert Remove(m, Self) == Remove(m[1..], Self) == m[1..];
      assert [Self] + m[1..] == m;
    }
  }

  /** The constructor's arguments that hand back existing settings as source lists. */
  function AsArgs(st: Settings): (a: Args)
    ensures Keys(a) == Names(st)
  {
    if st == [] then []
    else
      var a := [(st[0].name, UniqueList(st[0].sources))] + AsArgs(st[1..]);
      assert a[1..] == AsArgs(st[1..]);
      a
  }

  /** When every stored name is known, the known keys of `AsArgs(st)` are the stored names. */
  lemma {:induction false} AsArgsKnown(st: Settings)
    requires forall e {:trigger e in st} :: e in st ==> e.name in Types
    ensures KnownKeys(AsArgs(st)) == Names(st)
  {
    if st != [] {
      assert st[0] in st;
      forall e | e in st[1..] ensures e.name in Types {
        assert e in st;
      }
      AsArgsKnown(st[1..]);
      assert AsArgs(st)[1..] == AsArgs(st[1..]);
      assert Names(st) == [st[0].name] + Names(st[1..]);
    }
  }

  /** With unique names, `AsArgs(st)` assigns each stored list exactly once. */
  lemma {:induction false} AsArgsAssigned(st: Settings, k: string)
    requires Distinct(Names(st))
    ensures Assigned(AsArgs(st), k) == match Lookup(st, k) case Some(l) => Some(UniqueList(l)) case None => None
  {
    if st != [] {
      var a := AsArgs(st);
      assert a[1..] == AsArgs(st[1..]);
      assert Names(st) == [st[0].name] + Names(st[1..]);
      DistinctTail(Names(st));
      AsArgsAssigned(st[1..], k);
      if k == st[0].name {
        assert k !in Names(st[1..]);
      }
    }
  }

  /** The lists of a rebuilt policy: what was stored, after `Reseed`. */
  function Reseeded(f: Flags, o: Option<seq<string>>): Option<seq<string>>
  {
    match o
    case Some(l) => Some(Reseed(f, l))
    case None => None
  }

  /**
   Running the constructor on existing settings (as every derivation does) keeps the names and
   their order, and passes each list through `Reseed`.
   */
  lemma {:induction false} Rebuild(st: Settings, f: Flags)
    requires |st| > 0 && st[0].name == DefaultSrc
    requires Distinct(Names(st))
    requires forall e {:trigger e in st} :: e in st ==> e.name in Types && Distinct(e.sources)
    ensures Names(New(AsArgs(st), f).settings) == Names(st)
    ensures forall k {:trigger Lookup(New(AsArgs(st), f).settings, k)} ::
      Lookup(New(AsArgs(st), f).settings, k) == Reseeded(f, Lookup(st, k))
  {
    var ns := Names(st);
    assert ns[0] == DefaultSrc;
    AsArgsKnown(st);
    assert ns == [DefaultSrc] + ns[1..];
    DistinctTail(ns);
    AddListCons([DefaultSrc], DefaultSrc, ns[1..]);
    AddListFresh([DefaultSrc], ns[1..]);
    var r := New(AsArgs(st), f);
    forall k ensures Lookup(r.settings, k) == Reseeded(f, Lookup(st, k)) {
      AsArgsAssigned(st, k);
      assert Lookup(r.settings, k) == AssignedList([Entry(DefaultSrc, Seed(f))], AsArgs(st), f, k);
      match Lookup(st, k)
      case Some(l) =>
        assert Entry(k, l) in st;
        MergeDistinct(f, l);
      case None =>
        assert k != DefaultSrc by {
          assert DefaultSrc in ns;
        }
    }
  }
}
