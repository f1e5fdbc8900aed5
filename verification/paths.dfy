/** The string operations behind path handling: `str.strip(c)`, `str.split(c)`
    and `c.join(parts)` for a one-character separator.
 */
module Paths {

  /** `s.lstrip(c)`. */
  function TrimLeft(s: string, c: char): (r: string)
    ensures |r| <= |s| && r == s[|s| - |r|..]
    ensures |r| > 0 ==> r[0] != c
    ensures forall i :: 0 <= i < |s| - |r| ==> s[i] == c
  {
    if |s| > 0 && s[0] == c then TrimLeft(s[1..], c) else s
  }

  /** `s.rstrip(c)`. */
  function TrimRight(s: string, c: char): (r: string)
    ensures |r| <= |s| && r == s[..|r|]
    ensures |r| > 0 ==> r[|r| - 1] != c
    ensures forall i :: |r| <= i < |s| ==> s[i] == c
  {
    if |s| > 0 && s[|s| - 1] == c then TrimRight(s[..|s| - 1], c) else s
  }

  /** `t` occurs in `s` starting at index `i`. */
  predicate SitsAt(t: string, s: string, i: nat) {
    i + |t| <= |s| && t == s[i..i + |t|]
  }

  /** Every character of `t` is `c`. */
  predicate AllOf(t: string, c: char) {
    forall j :: 0 <= j < |t| ==> t[j] == c
  }

  /** Reference definition: how many copies of `c` open `s`. */
  function Lead(s: string, c: char): (n: nat)
    ensures n <= |s|
    ensures forall j :: 0 <= j < n ==> s[j] == c
    ensures n < |s| ==> s[n] != c
  {
    if |s| > 0 && s[0] == c then 1 + Lead(s[1..], c) else 0
  }

  /** `s.strip(c)`: copies of `c` removed at both ends, and nothing else touched. */
  function Strip(s: string, c: char): (r: string)
    ensures |r| <= |s|
    ensures |r| > 0 ==> r[0] != c && r[|r| - 1] != c
    ensures |s| > 0 && s[0] != c && s[|s| - 1] != c ==> r == s
    ensures SitsAt(r, s, Lead(s, c))
    ensures Lead(s, c) + |r| <= |s| && AllOf(s[Lead(s, c) + |r|..], c)
  {
    var l := TrimLeft(s, c);
    var r := TrimRight(l, c);
    LeadTrimmed(s, c);
    StripFacts(s, c, l, r);
    r
  }

  /** A leading copy of `c` makes no difference to `strip`. */
  lemma StripSkipsLead(s: string, c: char)
    requires |s| > 0 && s[0] == c
    ensures Strip(s, c) == Strip(s[1..], c)
  {
  }

  /** What `Strip` promises, from the contracts of the two trims. */
  lemma StripFacts(s: string, c: char, l: string, r: string)
    requires |l| <= |s| && l == s[|s| - |l|..] && |s| - |l| == Lead(s, c) && (|l| > 0 ==> l[0] != c)
    requires |r| <= |l| && r == l[..|r|] && (|r| > 0 ==> r[|r| - 1] != c) && forall j :: |r| <= j < |l| ==> l[j] == c
    ensures |r| <= |s|
    ensures |r| > 0 ==> r[0] != c && r[|r| - 1] != c
    ensures |s| > 0 && s[0] != c && s[|s| - 1] != c ==> r == s
    ensures SitsAt(r, s, Lead(s, c))
    ensures Lead(s, c) + |r| <= |s| && AllOf(s[Lead(s, c) + |r|..], c)
  {
    StripSlice(s, l, r, c);
    assert AllOf(s[Lead(s, c) + |r|..], c);
    if |r| > 0 {
      assert r[0] == l[0];
    }
    if |s| > 0 && s[0] != c && s[|s| - 1] != c {
      assert l == s;
    }
  }

  /** `lstrip` removes exactly the leading run. */
  lemma LeadTrimmed(s: string, c: char)
    ensures |s| - |TrimLeft(s, c)| == Lead(s, c)
  {
  }

  lemma StripSlice(s: string, l: string, r: string, c: char)
    requires |l| <= |s| && l == s[|s| - |l|..]
    requires |r| <= |l| && r == l[..|r|] && forall j :: |r| <= j < |l| ==> l[j] == c
    ensures var i := |s| - |l|; r == s[i..i + |r|] && forall j :: i + |r| <= j < |s| ==> s[j] == c
  {
    var i := |s| - |l|;
    forall j | i + |r| <= j < |s| ensures s[j] == c {
      assert s[j] == l[j - i];
    }
  }

  /** `sep.join(parts)`. */
  function Join(parts: seq<string>, sep: char): string {
    if |parts| == 0 then ""
    else if |parts| == 1 then parts[0]
    else parts[0] + [sep] + Join(parts[1..], sep)
  }

  /** `s.split(sep)`: never empty, and no part holds the separator. */
  function Split(s: string, sep: char): (parts: seq<string>)
    ensures |parts| >= 1
    ensures forall i :: 0 <= i < |parts| ==> sep !in parts[i]
  {
    if |s| == 0 then [""]
    else
      var rest := Split(s[1..], sep);
      if s[0] == sep then [""] + rest
      else [[s[0]] + rest[0]] + rest[1..]
  }

  lemma {:induction false} JoinGrowHead(c: char, x: string, tail: seq<string>, sep: char)
    ensures Join([[c] + x] + tail, sep) == [c] + Join([x] + tail, sep)
  {
    var a := [[c] + x] + tail;
    var b := [x] + tail;
    if |tail| > 0 {
      assert a[1..] == tail && b[1..] == tail;
    }
  }

  /** Splitting and joining again gives back the string. */
  lemma {:induction false} SplitJoin(s: string, sep: char)
    ensures Join(Split(s, sep), sep) == s
  {
    if |s| > 0 {
      var rest := Split(s[1..], sep);
      SplitJoin(s[1..], sep);
      if s[0] == sep {
        assert ([""] + rest)[1..] == rest;
        assert Join([""] + rest, sep) == [sep] + Join(rest, sep);
      } else {
        assert [rest[0]] + rest[1..] == rest;
        JoinGrowHead(s[0], rest[0], rest[1..], sep);
      }
      assert s == [s[0]] + s[1..];
    }
  }

  lemma {:induction false} SplitNoSep(p: string, sep: char)
    requires sep !in p
    ensures Split(p, sep) == [p]
  {
    if |p| > 0 {
      SplitNoSep(p[1..], sep);
      assert [p[0]] + p[1..] == p;
    }
  }

  lemma {:induction false} SplitAtSep(p: string, t: string, sep: char)
    requires sep !in p
    ensures Split(p + [sep] + t, sep) == [p] + Split(t, sep)
  {
    var s := p + [sep] + t;
    if |p| == 0 {
      assert s[1..] == t;
    } else {
      assert s[1..] == p[1..] + [sep] + t;
      SplitAtSep(p[1..], t, sep);
      assert [p[0]] + p[1..] == p;
    }
  }

  /** Joining parts free of the separator and splitting again gives back the parts. */
  lemma {:induction false} JoinSplit(parts: seq<string>, sep: char)
    requires |parts| >= 1
    requires forall i :: 0 <= i < |parts| ==> sep !in parts[i]
    ensures Split(Join(parts, sep), sep) == parts
  {
    if |parts| == 1 {
      SplitNoSep(parts[0], sep);
    } else {
      JoinSplit(parts[1..], sep);
      SplitAtSep(parts[0], Join(parts[1..], sep), sep);
      assert [parts[0]] + parts[1..] == parts;
    }
  }
}
