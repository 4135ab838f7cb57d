/** Python's `s.split(" ")` and `" ".join(ts)` on a first name, and the
    trailing-initial rule built on them. */
module Tokens {
  import opened Cells

  /** `" ".join(ts)`. */
  function Join(ts: seq<string>): string
    decreases |ts|
  {
    if |ts| == 0 then ""
    else if |ts| == 1 then ts[0]
    else ts[0] + " " + Join(ts[1..])
  }

  /** `s.split(" ")`: split on every single space, so consecutive spaces give
      empty tokens and the empty string gives one empty token. */
  function Split(s: string): (ts: seq<string>)
    ensures |ts| >= 1
    ensures forall i :: 0 <= i < |ts| ==> ' ' !in ts[i]
    ensures Join(ts) == s
    decreases |s|
  {
    if |s| == 0 then [""]
    else
      var rest := Split(s[1..]);
      assert s == [s[0]] + s[1..];
      if s[0] == ' ' then
        JoinSpace(rest);
        [""] + rest
      else
        JoinGlue(s[0], rest);
        [[s[0]] + rest[0]] + rest[1..]
  }

  /** A leading empty token joins as a leading space. */
  lemma JoinSpace(rest: seq<string>)
    requires |rest| >= 1
    ensures Join([""] + rest) == " " + Join(rest)
  {
    assert ([""] + rest)[1..] == rest;
  }

  /** A character glued to the first token joins in front of the whole. */
  lemma JoinGlue(c: char, rest: seq<string>)
    requires |rest| >= 1
    ensures Join([[c] + rest[0]] + rest[1..]) == [c] + Join(rest)
  {
    if |rest| == 1 {
      JoinGlueLast(c, rest);
    } else {
      JoinGlueMore(c, rest);
    }
  }

  lemma JoinGlueLast(c: char, rest: seq<string>)
    requires |rest| == 1
    ensures Join([[c] + rest[0]] + rest[1..]) == [c] + Join(rest)
  {
    assert [[c] + rest[0]] + rest[1..] == [[c] + rest[0]];
  }

  lemma JoinGlueMore(c: char, rest: seq<string>)
    requires |rest| >= 2
    ensures Join([[c] + rest[0]] + rest[1..]) == [c] + Join(rest)
  {
    var a, tail := rest[0], rest[1..];
    JoinCons([c] + a, tail);
    GlueAssoc(c, a, Join(tail));
    JoinCons(a, tail);
    assert [a] + tail == rest;
  }

  lemma GlueAssoc(c: char, a: string, j: string)
    ensures ([c] + a) + " " + j == [c] + (a + " " + j)
  {
  }

  /** Joining a token in front of at least one more. */
  lemma JoinCons(t: string, ts: seq<string>)
    requires |ts| >= 1
    ensures Join([t] + ts) == t + " " + Join(ts)
  {
    assert ([t] + ts)[1..] == ts;
  }

  /** Joining peels off the last token behind one space. */
  lemma {:induction false} JoinLast(ts: seq<string>)
    requires |ts| >= 2
    ensures Join(ts) == Join(ts[..|ts| - 1]) + " " + ts[|ts| - 1]
    decreases |ts|
  {
    if |ts| > 2 {
      JoinLast(ts[1..]);
      assert ts[1..][..|ts| - 2] == ts[..|ts| - 1][1..];
    } else {
      assert ts[..1] == [ts[0]];
    }
  }

  /** A word without spaces is a single token. */
  lemma {:induction false} SplitWord(t: string)
    requires ' ' !in t
    ensures Split(t) == [t]
    decreases |t|
  {
    if |t| > 0 {
      assert t == [t[0]] + t[1..];
      assert ' ' !in t[1..];
      SplitWord(t[1..]);
    }
  }

  /** A word without spaces followed by a space splits off as the first token. */
  lemma {:induction false} SplitWordSpace(t: string, s: string)
    requires ' ' !in t
    ensures Split(t + " " + s) == [t] + Split(s)
    decreases |t|
  {
    var x := t + " " + s;
    if |t| == 0 {
      assert x[0] == ' ' && x[1..] == s;
    } else {
      assert x[0] == t[0] && x[1..] == t[1..] + " " + s;
      assert ' ' !in t[1..];
      SplitWordSpace(t[1..], s);
      assert [t[0]] + t[1..] == t;
    }
  }

  /** `" ".join` and `split(" ")` are inverse: joining tokens that hold no
      space and splitting the result gives the tokens back. */
  lemma {:induction false} SplitJoin(ts: seq<string>)
    requires |ts| >= 1 && forall i :: 0 <= i < |ts| ==> ' ' !in ts[i]
    ensures Split(Join(ts)) == ts
    decreases |ts|
  {
    if |ts| == 1 {
      SplitWord(ts[0]);
    } else {
      SplitWordSpace(ts[0], Join(ts[1..]));
      SplitJoin(ts[1..]);
      assert [ts[0]] + ts[1..] == ts;
    }
  }

  /** A first name ends in an initial: its last character is not a space and
      is either the whole name or preceded by a space. */
  predicate HasTrailingInitial(s: string)
  {
    |s| >= 1 && s[|s| - 1] != ' ' && (|s| == 1 || s[|s| - 2] == ' ')
  }

  /** A name without spaces ends in an initial exactly when it is one character. */
  lemma InitialWithoutSpace(s: string)
    requires ' ' !in s
    ensures HasTrailingInitial(s) <==> |s| == 1
  {
    if |s| >= 2 {
      assert s[|s| - 2] in s;
    }
    if |s| >= 1 {
      assert s[|s| - 1] in s;
    }
  }

  /** A name `a + " " + b` whose tail b has no space ends in an initial exactly
      when b is one character. */
  lemma InitialAfterSpace(a: string, b: string)
    requires ' ' !in b
    ensures HasTrailingInitial(a + " " + b) <==> |b| == 1
  {
    var s := a + " " + b;
    if |b| >= 2 {
      assert s[|s| - 2] == b[|b| - 2];
      assert b[|b| - 2] in b;
    } else if |b| == 1 {
      assert s[|s| - 1] == b[0];
      assert b[0] in b;
      assert s[|s| - 2] == ' ';
    } else {
      assert s[|s| - 1] == ' ';
    }
  }

  /** How the last token of `first.split(" ")` sits at the end of `first`. */
  lemma LastTokenShape(first: string, ts: seq<string>)
    requires ts == Split(first)
    ensures |ts[|ts| - 1]| == 1 <==> HasTrailingInitial(first)
    ensures |ts| == 1 ==> first == ts[0]
    ensures |ts| >= 2 ==> first == Join(ts[..|ts| - 1]) + " " + ts[|ts| - 1]
  {
    var last := ts[|ts| - 1];
    assert ' ' !in last;
    if |ts| >= 2 {
      JoinLast(ts);
      InitialAfterSpace(Join(ts[..|ts| - 1]), last);
    } else {
      InitialWithoutSpace(first);
    }
  }

  /** The trailing-initial rule: split the first name on " ", and when the last
      token has length 1 drop it and join the rest with " ".  None means the
      name is left alone. */
  function RemoveTrailingInitial(first: string): (r: Option<string>)
    ensures r.Some? <==> HasTrailingInitial(first)
    ensures r.Some? && |first| == 1 ==> r.value == ""
    ensures r.Some? && |first| >= 2 ==> first == r.value + " " + [first[|first| - 1]]
    ensures r.Some? ==> |r.value| < |first|
  {
    var ts := Split(first);
    LastTokenShape(first, ts);
    if |ts[|ts| - 1]| == 1 then Some(Join(ts[..|ts| - 1])) else None
  }
}
