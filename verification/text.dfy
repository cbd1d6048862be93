/**
 PHP's `explode` on a one-character delimiter and `implode`, on strings as character sequences.
 `explode` keeps empty pieces: splitting "" gives [""], and two adjacent delimiters give an
 empty piece between them.
 */
module Text {

  /** `explode(sep, s)`: the pieces of `s` between occurrences of `sep`. */
  function Explode(s: string, sep: char): (r: seq<string>)
    ensures |r| >= 1
    ensures forall i :: 0 <= i < |r| ==> sep !in r[i]
  {
    if s == [] then [""]
    else
      var rest := Explode(s[1..], sep);
      if s[0] == sep then [""] + rest
      else [[s[0]] + rest[0]] + rest[1..]
  }

  /** `implode(sep, parts)`: the parts with `sep` between neighbours; "" for no parts. */
  function Implode(sep: string, parts: seq<string>): string
  {
    if parts == [] then ""
    else if |parts| == 1 then parts[0]
    else parts[0] + sep + Implode(sep, parts[1..])
  }

  /** Joining the pieces of `explode` with the delimiter gives back the original string. */
  lemma {:induction false} ImplodeExplode(s: string, sep: char)
    ensures Implode([sep], Explode(s, sep)) == s
  {
    if s != [] {
      var rest := Explode(s[1..], sep);
      ImplodeExplode(s[1..], sep);
      if s[0] == sep {
        assert ([""] + rest)[1..] == rest;
        assert [s[0]] + s[1..] == s;
      } else {
        var r := [[s[0]] + rest[0]] + rest[1..];
        if |rest| == 1 {
          assert Implode([sep], rest) == rest[0];
        } else {
          assert Implode([sep], rest) == rest[0] + [sep] + Implode([sep], rest[1..]);
          assert r[1..] == rest[1..];
        }
        assert [s[0]] + s[1..] == s;
      }
    }
  }

  /** A string without the delimiter is a single piece. */
  lemma {:induction false} ExplodeWhole(p: string, sep: char)
    requires sep !in p
    ensures Explode(p, sep) == [p]
  {
    if p != [] {
      ExplodeWhole(p[1..], sep);
      assert [p[0]] + p[1..] == p;
    }
  }

  /** A delimiter-free piece followed by the delimiter splits off as the first piece. */
  lemma {:induction false} ExplodeFirst(p: string, rest: string, sep: char)
    requires sep !in p
    ensures Explode(p + [sep] + rest, sep) == [p] + Explode(rest, sep)
  {
    var s := p + [sep] + rest;
    if p == [] {
      assert s[0] == sep && s[1..] == rest;
    } else {
      assert s[0] == p[0] && s[1..] == p[1..] + [sep] + rest;
      ExplodeFirst(p[1..], rest, sep);
      assert [p[0]] + p[1..] == p;
    }
  }

  /** Splitting a join of delimiter-free parts gives back the parts. */
  lemma {:induction false} ExplodeImplode(parts: seq<string>, sep: char)
    requires parts != []
    requires forall i :: 0 <= i < |parts| ==> sep !in parts[i]
    ensures Explode(Implode([sep], parts), sep) == parts
  {
    if |parts| == 1 {
      ExplodeWhole(parts[0], sep);
    } else {
      ExplodeImplode(parts[1..], sep);
      ExplodeFirst(parts[0], Implode([sep], parts[1..]), sep);
      assert [parts[0]] + parts[1..] == parts;
    }
  }

  /** A character in neither the parts nor the separator is not in their join. */
  lemma {:induction false} ImplodeAvoids(sep: string, parts: seq<string>, c: char)
    requires c !in sep
    requires forall i :: 0 <= i < |parts| ==> c !in parts[i]
    ensures c !in Implode(sep, parts)
  {
    if |parts| > 1 {
      ImplodeAvoids(sep, parts[1..], c);
    }
  }
}
