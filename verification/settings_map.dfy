/**
 The policy's settings: an association list from directive name to source list. It keeps the
 order of a PHP array: writing a key that is already present replaces its value in place,
 writing a new key appends it at the end.
 */
module SettingsMap {
  import opened Optional
  import SourceList

  /** One stored directive and its source list. */
  datatype Entry = Entry(name: string, sources: seq<string>)

  type Settings = seq<Entry>

  /** The stored directive names, in storage order. */
  function Names(st: Settings): (ns: seq<string>)
    ensures |ns| == |st|
    ensures forall i {:trigger ns[i]} :: 0 <= i < |st| ==> ns[i] == st[i].name
  {
    if st == [] then [] else [st[0].name] + Names(st[1..])
  }

  /** The source list stored under `k`, if any (the first match). */
  function Lookup(st: Settings, k: string): (r: Option<seq<string>>)
    ensures r.Some? <==> k in Names(st)
    ensures r.Some? ==> Entry(k, r.value) in st
  {
    if st == [] then None
    else if st[0].name == k then Some(st[0].sources)
    else Lookup(st[1..], k)
  }

  /** The source list stored under `k`, or `dflt` when `k` is not stored. */
  function LookupOr(st: Settings, k: string, dflt: seq<string>): seq<string>
  {
    match Lookup(st, k)
    case Some(l) => l
    case None => dflt
  }

  /** `$settings[k] = v`: replace in place, or append a new entry. */
  function Put(st: Settings, k: string, v: seq<string>): (r: Settings)
    ensures Names(r) == SourceList.Add(Names(st), k)
    ensures forall j {:trigger Lookup(r, j)} :: Lookup(r, j) == if j == k then Some(v) else Lookup(st, j)
    ensures forall e {:trigger e in r} :: e in r ==> e in st || e == Entry(k, v)
  {
    if st == [] then [Entry(k, v)]
    else if st[0].name == k then
      ConsFacts(Entry(k, v), st[1..]);
      ConsFacts(st[0], st[1..]);
      assert [st[0]] + st[1..] == st;
      [Entry(k, v)] + st[1..]
    else
      var t := Put(st[1..], k, v);
      ConsFacts(st[0], t);
      ConsFacts(st[0], st[1..]);
      assert [st[0]] + st[1..] == st;
      SourceList.AddCons(st[0].name, Names(st[1..]), k);
      [st[0]] + t
  }

  /** Names and lookups of a settings list with one entry in front. */
  lemma ConsFacts(e: Entry, st: Settings)
    ensures Names([e] + st) == [e.name] + Names(st)
    ensures forall j {:trigger Lookup([e] + st, j)} :: Lookup([e] + st, j) == if j == e.name then Some(e.sources) else Lookup(st, j)
    ensures forall x :: x in [e] + st <==> x == e || x in st
  {
    assert ([e] + st)[1..] == st;
  }

  /** Two settings with the same duplicate-free names and the same lookups are equal. */
  lemma {:induction false} Extensionality(a: Settings, b: Settings)
    requires SourceList.Distinct(Names(a))
    requires Names(a) == Names(b)
    requires forall k {:trigger Lookup(a, k)} :: Lookup(a, k) == Lookup(b, k)
    ensures a == b
  {
    if a != [] {
      var n := a[0].name;
      assert Names(a)[0] == n && Names(b)[0] == b[0].name;
      assert Lookup(a, n) == Some(a[0].sources);
      assert Lookup(b, n) == Some(b[0].sources);
      assert a[0] == b[0];
      assert Names(a[1..]) == Names(a)[1..];
      assert Names(b[1..]) == Names(b)[1..];
      SourceList.DistinctTail(Names(a));
      forall k ensures Lookup(a[1..], k) == Lookup(b[1..], k) {
        if k != n {
          assert Lookup(a, k) == Lookup(a[1..], k);
          assert Lookup(b, k) == Lookup(b[1..], k);
        }
      }
      Extensionality(a[1..], b[1..]);
      assert a == [a[0]] + a[1..];
      assert b == [b[0]] + b[1..];
    }
  }

  /** Writing a key twice leaves only the second value. */
  lemma {:induction false} PutTwice(st: Settings, k: string, a: seq<string>, b: seq<string>)
    ensures Put(Put(st, k, a), k, b) == Put(st, k, b)
  {
    if st != [] && st[0].name != k {
      var t := Put(st[1..], k, a);
      PutTwice(st[1..], k, a, b);
      assert ([st[0]] + t)[0] == st[0] && ([st[0]] + t)[1..] == t;
    } else if st != [] {
      assert ([Entry(k, a)] + st[1..])[1..] == st[1..];
    }
  }

  /** Writing back the value a key already holds changes nothing. */
  lemma PutStored(st: Settings, k: string, v: seq<string>)
    requires SourceList.Distinct(Names(st))
    requires Lookup(st, k) == Some(v)
    ensures Put(st, k, v) == st
  {
    Extensionality(Put(st, k, v), st);
  }

  /** With unique names, every stored entry is what its name looks up. */
  lemma {:induction false} LookupEntry(st: Settings, e: Entry)
    requires SourceList.Distinct(Names(st))
    requires e in st
    ensures Lookup(st, e.name) == Some(e.sources)
  {
    if st[0] != e {
      assert e in st[1..];
      assert Names(st[1..]) == Names(st)[1..];
      SourceList.DistinctTail(Names(st));
      LookupEntry(st[1..], e);
      assert e.name in Names(st[1..]);
      assert st[0].name != e.name;
    }
  }

  /** Every stored entry's name is among the stored names. */
  lemma NamesCover(st: Settings)
    ensures forall e {:trigger e in st} :: e in st ==> e.name in Names(st)
  {
    forall e | e in st ensures e.name in Names(st) {
      var i :| 0 <= i < |st| && st[i] == e;
      assert Names(st)[i] == e.name;
    }
  }
}
