/**
 Sequences of derivations from a constructed policy, and concrete policies from the class's own
 test cases.
 */
module Scenarios {
  import opened Optional
  import opened SourceList
  import opened SettingsMap
  import opened ContentSecurityPolicy
  import opened Derivations
  import opened Header
  import Text

  /** One call of a derivation method. */
  datatype Op =
    | AddItemOp(d: string, x: string)
    | RemoveItemOp(d: string, x: string)
    | AddListOp(d: string, xs: seq<string>)
    | RemoveListOp(d: string, xs: seq<string>)
    | AddUnsafeInlineOp(d: string)
    | RemoveUnsafeInlineOp(d: string)
    | AddMapOp(m: SourceMap)
    | RemoveMapOp(m: SourceMap)

  function Step(p: Policy, op: Op): Policy
  {
    match op
    case AddItemOp(d, x) => AddItemToSrc(p, d, x)
    case RemoveItemOp(d, x) => RemoveItemToSrc(p, d, x)
    case AddListOp(d, xs) => AddListToSrc(p, d, xs)
    case RemoveListOp(d, xs) => RemoveListToSrc(p, d, xs)
    case AddUnsafeInlineOp(d) => AddUnsafeInline(p, d)
    case RemoveUnsafeInlineOp(d) => RemoveUnsafeInline(p, d)
    case AddMapOp(m) => AddMap(p, m)
    case RemoveMapOp(m) => RemoveMap(p, m)
  }

  /** The policy after calling each derivation in turn, every call on the previous result. */
  function Run(p: Policy, ops: seq<Op>): Policy
    decreases |ops|
  {
    if ops == [] then p else Run(Step(p, ops[0]), ops[1..])
  }

  /** No call of `removeMap` among the operations. */
  predicate KeepsAutoSelf(ops: seq<Op>) {
    forall i :: 0 <= i < |ops| ==> !ops[i].RemoveMapOp?
  }

  /** Every policy reachable by derivations from a valid one is valid: `default-src` first, known names only, duplicate-free lists, `'self'` in front under auto-self. */
  lemma {:induction false} RunValid(p: Policy, ops: seq<Op>)
    requires Valid(p)
    ensures Valid(Run(p, ops))
    decreases |ops|
  {
    if ops != [] {
      RunValid(Step(p, ops[0]), ops[1..]);
    }
  }

  /** Report-only never changes; auto-self survives exactly when `removeMap` is never called (or it was off already). */
  lemma {:induction false} RunFlags(p: Policy, ops: seq<Op>)
    requires Valid(p)
    ensures Run(p, ops).flags.reportOnly == p.flags.reportOnly
    ensures Run(p, ops).flags.autoSelf <==> p.flags.autoSelf && KeepsAutoSelf(ops)
    decreases |ops|
  {
    if ops != [] {
      var q := Step(p, ops[0]);
      StepFlags(p, ops[0]);
      RunFlags(q, ops[1..]);
      assert KeepsAutoSelf(ops) <==> !ops[0].RemoveMapOp? && KeepsAutoSelf(ops[1..]) by {
        assert forall i :: 0 < i < |ops| ==> ops[i] == ops[1..][i - 1];
      }
    }
  }

  /** One derivation keeps validity and report-only, and switches auto-self off exactly when it is `removeMap`. */
  lemma StepFlags(p: Policy, op: Op)
    requires Valid(p)
    ensures Valid(Step(p, op))
    ensures Step(p, op).flags.reportOnly == p.flags.reportOnly
    ensures Step(p, op).flags.autoSelf <==> p.flags.autoSelf && !op.RemoveMapOp?
  {
  }

  /** From any constructed policy, whatever the derivations, a directive the class does not know is never stored and reads as "". */
  lemma UnknownNeverStored(args: Args, flags: Flags, ops: seq<Op>, d: string)
    requires d !in Types
    ensures d !in Names(Run(New(args, flags), ops).settings)
    ensures GetString(Run(New(args, flags), ops), d) == ""
  {
    RunValid(New(args, flags), ops);
    ValidNames(Run(New(args, flags), ops));
  }

  /** With auto-self off, adding and removing an item on a directive not yet stored still reads back as "". */
  lemma AddThenRemoveFreshReads(p: Policy, d: string, x: string)
    requires Valid(p) && !p.flags.autoSelf && d in Types && d !in Names(p.settings)
    ensures GetString(RemoveItemToSrc(AddItemToSrc(p, d, x), d, x), d) == GetString(p, d) == ""
  {
    AddThenRemoveFresh(p, d, x);
  }

  // The class's own test cases.

  const Google: string := "https://www.google.com"

  /** The arguments the test cases construct their policy from. */
  const TestArgs: Args := [(DefaultSrc, Array([Google])), ("script-src", Array([Google]))]

  /** A policy constructed with no arguments holds `'self'` under `default-src`. */
  lemma DefaultPolicy()
    ensures New([], DefaultFlags).settings == [Entry(DefaultSrc, [Self])]
    ensures GetString(New([], DefaultFlags), DefaultSrc) == Self
  {
    var p := New([], DefaultFlags);
    assert Names(p.settings) == [DefaultSrc];
    assert Lookup(p.settings, DefaultSrc) == Some([Self]);
    Extensionality(p.settings, [Entry(DefaultSrc, [Self])]);
  }

  /** The settings a policy constructed from the test arguments holds. */
  const TestSettings: Settings := [Entry(DefaultSrc, [Self, Google]), Entry("script-src", [Self, Google])]

  lemma TestArgsNames()
    ensures Names(New(TestArgs, DefaultFlags).settings) == Names(TestSettings)
  {
    assert DefaultSrc in Types && "script-src" in Types;
    var tail := TestArgs[1..];
    assert tail[1..] == [];
    assert KnownKeys(tail) == ["script-src"] + KnownKeys(tail[1..]);
    assert KnownKeys(TestArgs) == [DefaultSrc] + KnownKeys(tail);
    AddListCons([DefaultSrc], DefaultSrc, ["script-src"]);
    AddListCons([DefaultSrc], "script-src", []);
    assert AddList([DefaultSrc], [DefaultSrc, "script-src"]) == [DefaultSrc, "script-src"];
    assert Names(TestSettings) == [DefaultSrc, "script-src"];
  }

  lemma TestArgsLookup(k: string)
    ensures Lookup(New(TestArgs, DefaultFlags).settings, k) == Lookup(TestSettings, k)
  {
    var init := [Entry(DefaultSrc, Seed(DefaultFlags))];
    assert Lookup(New(TestArgs, DefaultFlags).settings, k) == AssignedList(init, TestArgs, DefaultFlags, k);
    if k == DefaultSrc || k == "script-src" {
      TestArgsGiven(k);
    } else {
      assert Keys(TestArgs) == [DefaultSrc, "script-src"];
    }
  }

  lemma TestArgsGiven(k: string)
    requires k == DefaultSrc || k == "script-src"
    ensures AssignedList([Entry(DefaultSrc, Seed(DefaultFlags))], TestArgs, DefaultFlags, k) == Some([Self, Google])
    ensures Lookup(TestSettings, k) == Some([Self, Google])
  {
    assert k in Types;
    TestArgsAssigned(k);
    assert Seed(DefaultFlags) == [Self] && Values(Array([Google])) == [Google];
    MergeDistinct(DefaultFlags, [Google]);
    assert Remove([Google], Self) == [Google];
    assert Reseed(DefaultFlags, [Google]) == [Self, Google];
    assert TestSettings[1..][0] == Entry("script-src", [Self, Google]);
  }

  lemma TestArgsAssigned(k: string)
    requires k == DefaultSrc || k == "script-src"
    ensures Assigned(TestArgs, k) == Some(Array([Google]))
  {
    var tail := TestArgs[1..];
    assert tail[1..] == [];
    assert Assigned(tail[1..], k) == None;
  }

  /** `testEverything`: each given directive holds `'self'` then its value; others read as "". */
  lemma ConstructedFromTestArgs()
    ensures New(TestArgs, DefaultFlags).settings == TestSettings
    ensures GetString(New(TestArgs, DefaultFlags), DefaultSrc) == Self + " " + Google
    ensures GetString(New(TestArgs, DefaultFlags), "style-src") == ""
  {
    var p := New(TestArgs, DefaultFlags);
    TestArgsNames();
    forall k ensures Lookup(p.settings, k) == Lookup(TestSettings, k) {
      TestArgsLookup(k);
    }
    Extensionality(p.settings, TestSettings);
    assert Names(TestSettings) == [DefaultSrc, "script-src"];
    assert Lookup(TestSettings, DefaultSrc) == Some([Self, Google]);
    assert Text.Implode(" ", [Self, Google]) == Self + " " + Google;
  }

  /** `testUnsafeInline`: `'unsafe-inline'` is appended to `script-src` alone, and removing it restores the policy. */
  lemma UnsafeInlineOnTestPolicy()
    ensures AddUnsafeInline(New(TestArgs, DefaultFlags), "script-src").settings == [Entry(DefaultSrc, [Self, Google]), Entry("script-src", [Self, Google, UnsafeInline])]
    ensures RemoveUnsafeInline(AddUnsafeInline(New(TestArgs, DefaultFlags), "script-src"), "script-src") == New(TestArgs, DefaultFlags)
  {
    var p := New(TestArgs, DefaultFlags);
    ConstructedFromTestArgs();
    TestScriptSrc();
    assert Add([Self, Google], UnsafeInline) == [Self, Google, UnsafeInline];
    PutScriptSrc([Self, Google, UnsafeInline]);
    UnsafeInlineRoundTrip(p, "script-src");
  }

  /**
   On the test policy, `addUnsafeInline('style-src')` then `removeUnsafeInline('style-src')` leaves
   `style-src` holding `'self'`, where it read as "" before.
   */
  lemma UnsafeInlineOnUnstoredDirective()
    ensures GetString(New(TestArgs, DefaultFlags), "style-src") == ""
    ensures GetString(RemoveUnsafeInline(AddUnsafeInline(New(TestArgs, DefaultFlags), "style-src"), "style-src"), "style-src") == Self
  {
    ConstructedFromTestArgs();
    var r := RemoveUnsafeInline(AddUnsafeInline(New(TestArgs, DefaultFlags), "style-src"), "style-src");
    StyleSrcRoundTrip();
    assert "style-src" in Names(r.settings);
    assert GetString(r, "style-src") == Text.Implode(" ", [Self]);
  }

  /** The settings after the round trip on `style-src`: the test settings with `style-src` holding `'self'`. */
  lemma StyleSrcRoundTrip()
    ensures Lookup(RemoveUnsafeInline(AddUnsafeInline(New(TestArgs, DefaultFlags), "style-src"), "style-src").settings, "style-src") == Some([Self])
  {
    var p := New(TestArgs, DefaultFlags);
    ConstructedFromTestArgs();
    assert Names(TestSettings) == [DefaultSrc, "script-src"];
    assert "style-src" in Types && "style-src" !in Names(p.settings);
    AddThenRemoveFresh(p, "style-src", UnsafeInline);
    assert Seed(p.flags) == [Self];
  }

  /** `script-src` is a stored directive of the test policy, holding `'self'` and the test source. */
  lemma TestScriptSrc()
    ensures "script-src" in Types && "script-src" in Names(TestSettings)
    ensures Lookup(TestSettings, "script-src") == Some([Self, Google])
  {
    assert Names(TestSettings) == [DefaultSrc, "script-src"];
    assert TestSettings[1..][0] == Entry("script-src", [Self, Google]);
  }

  lemma PutScriptSrc(v: seq<string>)
    ensures Put(TestSettings, "script-src", v) == [Entry(DefaultSrc, [Self, Google]), Entry("script-src", v)]
  {
    var t := [Entry("script-src", [Self, Google])];
    assert TestSettings == [TestSettings[0]] + t;
    assert TestSettings[1..] == t;
    assert Put(t, "script-src", v) == [Entry("script-src", v)];
  }

  /** `testHeaderString`: both given directives, in order, after the header name. */
  lemma HeaderOfTestPolicy()
    ensures HeaderString(New(TestArgs, DefaultFlags)) == PolicyHeader + ": " + TestLinesText
  {
    var p := New(TestArgs, DefaultFlags);
    TestHeaderLines();
    assert p.flags == DefaultFlags;
    assert HeaderName(p) == PolicyHeader;
    var lines := AllHeaderLines(p);
    assert HeaderString(p) == PolicyHeader + ": " + lines;
  }

  /** `default-src 'self' https://www.google.com; script-src 'self' https://www.google.com`, built from its parts. */
  const TestLinesText: string := (DefaultSrc + " " + (Self + " " + Google)) + "; " + ("script-src" + " " + (Self + " " + Google))

  lemma TestHeaderLines()
    ensures AllHeaderLines(New(TestArgs, DefaultFlags)) == TestLinesText
  {
    ConstructedFromTestArgs();
    var a := Line(TestSettings[0]);
    var b := Line(TestSettings[1]);
    TestLines();
    assert [a, b][1..] == [b];
    assert Text.Implode("; ", [b]) == b;
    assert Text.Implode("; ", [a, b]) == a + "; " + b;
  }

  lemma TestLines()
    ensures Render(NonEmpty(TestSettings)) == [Line(TestSettings[0]), Line(TestSettings[1])]
    ensures Line(TestSettings[0]) == DefaultSrc + " " + (Self + " " + Google)
    ensures Line(TestSettings[1]) == "script-src" + " " + (Self + " " + Google)
  {
    var t := [Entry("script-src", [Self, Google])];
    assert TestSettings[1..] == t && t[1..] == [];
    assert NonEmpty(t) == t;
    assert NonEmpty(TestSettings) == TestSettings;
    LineOf(DefaultSrc);
    LineOf("script-src");
  }

  lemma SourcesText()
    ensures Text.Implode(" ", [Self, Google]) == Self + " " + Google
  {
    assert [Self, Google][1..] == [Google];
    assert Text.Implode(" ", [Google]) == Google;
  }

  lemma LineOf(d: string)
    ensures Line(Entry(d, [Self, Google])) == d + " " + (Self + " " + Google)
  {
    SourcesText();
    assert ([d] + [Self, Google])[1..] == [Self, Google];
  }
}
