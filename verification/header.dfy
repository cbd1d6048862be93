/**
 The HTTP header a policy renders to: `Content-Security-Policy` (or the Report-Only variant), then
 `": "`, then every directive with a non-empty list as `name src1 src2 …`, the directives joined
 by `"; "` in storage order. `ParseHeader` reads such a header back.
 */
module Header {
  import opened Optional
  import opened SourceList
  import opened SettingsMap
  import opened ContentSecurityPolicy
  import Text

  const PolicyHeader: string := "Content-Security-Policy"
  const ReportOnlyHeader: string := "Content-Security-Policy-Report-Only"

  /** `getHeaderName`: always starts with `Content-Security-Policy`, and is the Report-Only variant exactly when report-only is set. */
  function HeaderName(p: Policy): (n: string)
    ensures |PolicyHeader| <= |n| && n[..|PolicyHeader|] == PolicyHeader
    ensures p.flags.reportOnly <==> n != PolicyHeader
  {
    if p.flags.reportOnly then ReportOnlyHeader else PolicyHeader
  }

  /** A source that survives the header's syntax: no space and no semicolon. */
  predicate Word(w: string) {
    ' ' !in w && ';' !in w
  }

  /** No element of `l` holds a space. */
  predicate SpaceFree(l: seq<string>) {
    forall i :: 0 <= i < |l| ==> ' ' !in l[i]
  }

  /** Every stored source is a `Word`. */
  predicate PlainSources(st: Settings) {
    forall e {:trigger e in st} :: e in st ==> forall i :: 0 <= i < |e.sources| ==> Word(e.sources[i])
  }

  /**
   `getHeaderLine`: the directive name and its sources joined by single spaces, or "" when its
   list is empty. Splitting the line on spaces gives back the name and the sources.
   */
  function HeaderLine(p: Policy, d: string): (line: string)
    requires d in Names(p.settings)
    ensures Lookup(p.settings, d).value == [] <==> line == ""
    ensures Lookup(p.settings, d).value != [] && ' ' !in d && SpaceFree(Lookup(p.settings, d).value) ==> Text.Explode(line, ' ') == [d] + Lookup(p.settings, d).value
  {
    var l := Lookup(p.settings, d).value;
    if l != [] then
      assert Text.Implode(" ", [d] + l) == d + " " + Text.Implode(" ", l);
      assert ' ' !in d && SpaceFree(l) ==> Text.Explode(Text.Implode(" ", [d] + l), ' ') == [d] + l by {
        if ' ' !in d && SpaceFree(l) {
          assert forall i :: 0 <= i < |[d] + l| ==> ' ' !in ([d] + l)[i] by {
            forall i | 0 <= i < |[d] + l| ensures ' ' !in ([d] + l)[i] {
              if i > 0 {
                assert ([d] + l)[i] == l[i - 1];
              }
            }
          }
          Text.ExplodeImplode([d] + l, ' ');
        }
      }
      Text.Implode(" ", [d] + l)
    else ""
  }

  /** The text of one stored directive in the header. */
  function Line(e: Entry): string
  {
    Text.Implode(" ", [e.name] + e.sources)
  }

  /** The lines of the given entries, one per entry. */
  function Render(es: Settings): (ls: seq<string>)
    ensures |ls| == |es|
    ensures forall i {:trigger ls[i]} :: 0 <= i < |es| ==> ls[i] == Line(es[i])
  {
    if es == [] then [] else [Line(es[0])] + Render(es[1..])
  }

  /** The entries with a non-empty list, in storage order. */
  function NonEmpty(st: Settings): (r: Settings)
    ensures forall e {:trigger e in r} :: e in r <==> e in st && e.sources != []
  {
    if st == [] then []
    else
      var t := NonEmpty(st[1..]);
      assert forall e :: e in st <==> e == st[0] || e in st[1..];
      (if st[0].sources != [] then [st[0]] else []) + t
  }

  /** The loop of `getAllHeaderLines` over the entries `rest`: a line for each entry with a non-empty list. */
  function Lines(p: Policy, rest: Settings): (ls: seq<string>)
    requires forall e {:trigger e in rest} :: e in rest ==> e.name in Names(p.settings)
    ensures Distinct(Names(p.settings)) && (forall e {:trigger e in rest} :: e in rest ==> e in p.settings) ==> ls == Render(NonEmpty(rest))
  {
    if rest == [] then []
    else
      var e := rest[0];
      assert e in rest;
      assert forall x :: x in rest[1..] ==> x in rest;
      assert NonEmpty(rest) == (if e.sources != [] then [e] else []) + NonEmpty(rest[1..]);
      var t := Lines(p, rest[1..]);
      var here := if e.sources != [] then [HeaderLine(p, e.name)] else [];
      assert Distinct(Names(p.settings)) && e in p.settings ==> here == Render(if e.sources != [] then [e] else []) by {
        if Distinct(Names(p.settings)) && e in p.settings {
          LookupEntry(p.settings, e);
        }
      }
      RenderAppend(if e.sources != [] then [e] else [], NonEmpty(rest[1..]));
      here + t
  }

  lemma RenderAppend(a: Settings, b: Settings)
    ensures Render(a + b) == Render(a) + Render(b)
  {
    assert forall i :: 0 <= i < |a| ==> (a + b)[i] == a[i];
    assert forall i :: |a| <= i < |a| + |b| ==> (a + b)[i] == b[i - |a|];
  }

  /** `getAllHeaderLines`: the lines of the directives with a non-empty list, joined by `"; "`. */
  function AllHeaderLines(p: Policy): (s: string)
    ensures Valid(p) ==> s == Text.Implode("; ", Render(NonEmpty(p.settings)))
  {
    NamesCover(p.settings);
    Text.Implode("; ", Lines(p, p.settings))
  }

  /** `getHeaderString`: the header name, `": "`, and the header lines; it parses back to the flag and the non-empty directives. */
  function HeaderString(p: Policy): (h: string)
    ensures Valid(p) && PlainSources(p.settings) ==> ParseHeader(h) == Some((p.flags.reportOnly, NonEmpty(p.settings)))
  {
    var h := HeaderName(p) + ": " + AllHeaderLines(p);
    assert Valid(p) && PlainSources(p.settings) ==> ParseHeader(h) == Some((p.flags.reportOnly, NonEmpty(p.settings))) by {
      if Valid(p) && PlainSources(p.settings) {
        HeaderRoundTrip(p);
      }
    }
    h
  }

  /** `getString`: the stored sources joined by single spaces, or "" when the directive is not stored. */
  function GetString(p: Policy, d: string): (s: string)
    ensures d !in Names(p.settings) ==> s == ""
    ensures d in Names(p.settings) && Lookup(p.settings, d).value == [] ==> s == ""
    ensures d in Names(p.settings) && Lookup(p.settings, d).value != [] && SpaceFree(Lookup(p.settings, d).value) ==> Text.Explode(s, ' ') == Lookup(p.settings, d).value
  {
    if d in Names(p.settings) then
      var l := Lookup(p.settings, d).value;
      assert l != [] && SpaceFree(l) ==> Text.Explode(Text.Implode(" ", l), ' ') == l by {
        if l != [] && SpaceFree(l) {
          Text.ExplodeImplode(l, ' ');
        }
      }
      Text.Implode(" ", l)
    else ""
  }

  /** A directive the class does not know reads as "" in every valid policy. */
  lemma UnknownReadsEmpty(p: Policy, d: string)
    requires Valid(p) && d !in Types
    ensures GetString(p, d) == ""
  {
  }

  // Reading a header back.

  /** Splits a header into its flag and its directives; `None` when it does not start with a policy header name. */
  function ParseHeader(h: string): Option<(bool, Settings)>
  {
    var ro := ReportOnlyHeader + ": ";
    var pl := PolicyHeader + ": ";
    if |ro| <= |h| && h[..|ro|] == ro then Some((true, ParseLines(h[|ro|..])))
    else if |pl| <= |h| && h[..|pl|] == pl then Some((false, ParseLines(h[|pl|..])))
    else None
  }

  /** The directives of the text after the header name: pieces between semicolons, each without its leading space. */
  function ParseLines(t: string): Settings
  {
    if t == "" then [] else ParseEntries(Unlead(Text.Explode(t, ';')))
  }

  function DropSpace(w: string): string
  {
    if |w| > 0 && w[0] == ' ' then w[1..] else w
  }

  /** The first piece as it is, every later one without its leading space. */
  function Unlead(ps: seq<string>): (r: seq<string>)
    requires ps != []
    ensures |r| == |ps| && r[0] == ps[0]
    ensures forall i {:trigger r[i]} :: 0 < i < |ps| ==> r[i] == DropSpace(ps[i])
  {
    [ps[0]] + Unspaced(ps[1..])
  }

  function Unspaced(ps: seq<string>): (r: seq<string>)
    ensures |r| == |ps|
    ensures forall i {:trigger r[i]} :: 0 <= i < |ps| ==> r[i] == DropSpace(ps[i])
  {
    if ps == [] then [] else [DropSpace(ps[0])] + Unspaced(ps[1..])
  }

  /** One directive: the first space-separated piece is the name, the rest are the sources. */
  function ParseLine(l: string): Entry
  {
    var ws := Text.Explode(l, ' ');
    Entry(ws[0], ws[1..])
  }

  function ParseEntries(ls: seq<string>): (es: Settings)
    ensures |es| == |ls|
    ensures forall i {:trigger es[i]} :: 0 <= i < |ls| ==> es[i] == ParseLine(ls[i])
  {
    if ls == [] then [] else [ParseLine(ls[0])] + ParseEntries(ls[1..])
  }

  /** The pieces after the first, each with a leading space. */
  function Spaced(ls: seq<string>): (r: seq<string>)
    ensures |r| == |ls|
    ensures forall i {:trigger r[i]} :: 0 <= i < |ls| ==> r[i] == " " + ls[i]
  {
    if ls == [] then [] else [" " + ls[0]] + Spaced(ls[1..])
  }

  /** A space in front of the first part is a space in front of the join. */
  lemma ImplodeLeadingSpace(sep: string, a: string, rest: seq<string>)
    ensures Text.Implode(sep, [" " + a] + rest) == " " + Text.Implode(sep, [a] + rest)
  {
    assert ([" " + a] + rest)[1..] == rest;
    assert ([a] + rest)[1..] == rest;
  }

  /** Joining on `"; "` is joining on `";"` after putting a space in front of every part but the first. */
  lemma {:induction false} ImplodeSemicolon(ls: seq<string>)
    requires ls != []
    ensures Text.Implode("; ", ls) == Text.Implode(";", [ls[0]] + Spaced(ls[1..]))
  {
    if |ls| > 1 {
      ImplodeSemicolon(ls[1..]);
      var tail := [ls[1]] + Spaced(ls[2..]);
      assert Spaced(ls[1..]) == [" " + ls[1]] + Spaced(ls[2..]);
      ImplodeLeadingSpace(";", ls[1], Spaced(ls[2..]));
      assert ([ls[0]] + Spaced(ls[1..]))[1..] == Spaced(ls[1..]);
      assert ls[1..][1..] == ls[2..];
    }
  }

  /** A directive name is a non-empty `Word`. */
  lemma TypesAreWords(d: string)
    requires d in Types
    ensures Word(d) && d != ""
  {
  }

  /** The line of an entry with a known name and plain sources parses back to the entry, and holds no semicolon. */
  lemma LineRoundTrip(e: Entry)
    requires e.name in Types
    requires forall i :: 0 <= i < |e.sources| ==> Word(e.sources[i])
    ensures ParseLine(Line(e)) == e
    ensures ';' !in Line(e) && Line(e) != ""
  {
    TypesAreWords(e.name);
    var parts := [e.name] + e.sources;
    assert forall i :: 0 <= i < |parts| ==> Word(parts[i]) by {
      forall i | 0 <= i < |parts| ensures Word(parts[i]) {
        if i > 0 {
          assert parts[i] == e.sources[i - 1];
        }
      }
    }
    Text.ExplodeImplode(parts, ' ');
    Text.ImplodeAvoids(" ", parts, ';');
    assert parts[1..] == e.sources;
  }

  /** The header lines of entries with known names and plain sources parse back to the entries. */
  lemma ParseLinesRender(es: Settings)
    requires forall e {:trigger e in es} :: e in es ==> e.name in Types && forall i :: 0 <= i < |e.sources| ==> Word(e.sources[i])
    ensures ParseLines(Text.Implode("; ", Render(es))) == es
  {
    if es != [] {
      var ls := Render(es);
      forall i | 0 <= i < |es| ensures ParseLine(ls[i]) == es[i] && ';' !in ls[i] && ls[i] != "" {
        assert es[i] in es;
        LineRoundTrip(es[i]);
      }
      var pieces := [ls[0]] + Spaced(ls[1..]);
      ImplodeSemicolon(ls);
      assert forall i :: 0 <= i < |pieces| ==> ';' !in pieces[i] by {
        forall i | 0 <= i < |pieces| ensures ';' !in pieces[i] {
          if i > 0 {
            assert pieces[i] == " " + ls[i];
          }
        }
      }
      Text.ExplodeImplode(pieces, ';');
      var t := Text.Implode("; ", ls);
      assert t != "";
      var u := Unlead(pieces);
      assert forall i :: 0 <= i < |u| ==> u[i] == ls[i] by {
        forall i | 0 <= i < |u| ensures u[i] == ls[i] {
          if i > 0 {
            assert pieces[i] == " " + ls[i];
          }
        }
      }
      assert u == ls;
      assert ParseEntries(ls) == es;
    }
  }

  /** A valid policy with plain sources renders to a header that parses back to its flag and its non-empty directives. */
  lemma HeaderRoundTrip(p: Policy)
    requires Valid(p) && PlainSources(p.settings)
    ensures ParseHeader(HeaderName(p) + ": " + AllHeaderLines(p)) == Some((p.flags.reportOnly, NonEmpty(p.settings)))
  {
    var es := NonEmpty(p.settings);
    forall e | e in es ensures e.name in Types && forall i :: 0 <= i < |e.sources| ==> Word(e.sources[i]) {
      assert EntryOk(e, p.flags.autoSelf);
    }
    ParseLinesRender(es);
    var lines := AllHeaderLines(p);
    var h := HeaderName(p) + ": " + lines;
    var ro := ReportOnlyHeader + ": ";
    var pl := PolicyHeader + ": ";
    if p.flags.reportOnly {
      assert h == ro + lines;
      assert h[..|ro|] == ro && h[|ro|..] == lines;
    } else {
      assert h == pl + lines;
      assert h[..|pl|] == pl && h[|pl|..] == lines;
      assert |ro| <= |h| ==> h[..|ro|] != ro by {
        if |ro| <= |h| {
          assert h[23] == ':' && ro[23] == '-';
        }
      }
    }
  }
}
