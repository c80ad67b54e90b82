/** The reference meaning of "edit distance": the least number of single-character edits, applied
    one after the other to the whole string, that turn one string into another.  `Distance` is a
    recursive characterisation of that number, proved equal to it and proved to be a metric.
    A string is a sequence of Unicode code points (Go's runes). */
module EditDistance {

  // ----- edit scripts -----

  datatype Edit =
    | Insert(pos: nat, c: char)
    | Delete(pos: nat)
    | Substitute(pos: nat, c: char)
  {
    predicate Fits(s: string) {
      if Insert? then pos <= |s| else pos < |s|
    }

    function Apply(s: string): string
      requires Fits(s)
    {
      match this
      case Insert(p, c) => s[..p] + [c] + s[p..]
      case Delete(p) => s[..p] + s[p + 1..]
      case Substitute(p, c) => s[p := c]
    }
  }

  /** The edits, applied from first to last, turn `s` into `t`. */
  predicate Transforms(edits: seq<Edit>, s: string, t: string) {
    if edits == [] then s == t
    else edits[0].Fits(s) && Transforms(edits[1..], edits[0].Apply(s), t)
  }

  /** `d` is the length of a shortest edit script from `s` to `t`. */
  ghost predicate IsEditDistance(s: string, t: string, d: nat) {
    && (exists edits :: Transforms(edits, s, t) && |edits| == d)
    && (forall edits :: Transforms(edits, s, t) ==> d <= |edits|)
  }

  // ----- the recursive characterisation -----

  function Min(a: int, b: int): int {
    if a < b then a else b
  }

  function Init(s: string): string
    requires s != []
  {
    s[..|s| - 1]
  }

  function Last(s: string): char
    requires s != []
  {
    s[|s| - 1]
  }

  function Distance(s: string, t: string): nat
    decreases |s| + |t|
  {
    if s == [] then |t|
    else if t == [] then |s|
    else
      Min(Distance(Init(s), Init(t)) + (if Last(s) == Last(t) then 0 else 1),
          Min(Distance(Init(s), t), Distance(s, Init(t))) + 1)
  }

  // ----- Distance is a metric -----

  lemma {:induction false} Symmetric(s: string, t: string)
    ensures Distance(s, t) == Distance(t, s)
    decreases |s| + |t|
  {
    if s != [] && t != [] {
      Symmetric(Init(s), Init(t));
      Symmetric(Init(s), t);
      Symmetric(s, Init(t));
    }
  }

  lemma {:induction false} Bounds(s: string, t: string)
    ensures |s| - |t| <= Distance(s, t) && |t| - |s| <= Distance(s, t)
    ensures Distance(s, t) <= |s| || Distance(s, t) <= |t|
    decreases |s| + |t|
  {
    if s != [] && t != [] {
      Bounds(Init(s), Init(t));
      Bounds(Init(s), t);
      Bounds(s, Init(t));
    }
  }

  lemma {:induction false} ZeroExactlyOnEquality(s: string, t: string)
    ensures Distance(s, t) == 0 <==> s == t
    decreases |s| + |t|
  {
    if s != [] && t != [] {
      ZeroExactlyOnEquality(Init(s), Init(t));
      assert s == Init(s) + [Last(s)] && t == Init(t) + [Last(t)];
    }
  }

  lemma {:induction false} Triangle(s: string, t: string, u: string)
    ensures Distance(s, u) <= Distance(s, t) + Distance(t, u)
    decreases |s| + |t| + |u|
  {
    if s == [] {
      Bounds(t, u);
    } else if u == [] {
      Bounds(s, t);
    } else if t != [] {
      Triangle(Init(s), t, u);
      Triangle(s, t, Init(u));
      Triangle(Init(s), Init(t), Init(u));
      Triangle(Init(s), Init(t), u);
      Triangle(s, Init(t), Init(u));
      Triangle(s, Init(t), u);
    } else {
      Bounds(s, u);
    }
  }

  /** Neighbouring cells of the distance table differ by at most one, so on equal last characters
      the diagonal alone is the minimum. */
  lemma {:induction false} MatchTakesDiagonal(s: string, t: string)
    requires s != [] && t != [] && Last(s) == Last(t)
    ensures Distance(s, t) == Distance(Init(s), Init(t))
  {
    DropLast(Init(s), t);
    DropLast(Init(t), s);
    Symmetric(Init(s), Init(t));
    Symmetric(Init(t), s);
  }

  lemma {:induction false} DropLast(s: string, t: string)
    requires t != []
    ensures Distance(s, Init(t)) <= Distance(s, t) + 1
    decreases |s| + |t|
  {
    if s != [] {
      DropLast(Init(s), t);
    }
  }

  // ----- Distance is the length of a shortest script -----

  lemma {:induction false} TransformsConcat(e1: seq<Edit>, e2: seq<Edit>, s: string, t: string, u: string)
    requires Transforms(e1, s, t) && Transforms(e2, t, u)
    ensures Transforms(e1 + e2, s, u)
  {
    if e1 == [] {
      assert e1 + e2 == e2;
    } else {
      TransformsConcat(e1[1..], e2, e1[0].Apply(s), t, u);
      var edits := e1 + e2;
      assert edits[0] == e1[0] && edits[1..] == e1[1..] + e2;
    }
  }

  lemma ApplyWithSuffix(e: Edit, s: string, suffix: string)
    requires e.Fits(s)
    ensures e.Fits(s + suffix) && e.Apply(s + suffix) == e.Apply(s) + suffix
  {
    var s' := s + suffix;
    assert s'[..e.pos] == s[..e.pos] && s'[e.pos..] == s[e.pos..] + suffix;
    if !e.Insert? {
      assert s'[e.pos + 1..] == s[e.pos + 1..] + suffix;
    }
  }

  lemma {:induction false} TransformsWithSuffix(edits: seq<Edit>, s: string, t: string, suffix: string)
    requires Transforms(edits, s, t)
    ensures Transforms(edits, s + suffix, t + suffix)
  {
    if edits != [] {
      var s' := edits[0].Apply(s);
      ApplyWithSuffix(edits[0], s, suffix);
      TransformsWithSuffix(edits[1..], s', t, suffix);
    }
  }

  /** One more edit at the end of a script. */
  lemma TransformsThen(edits: seq<Edit>, s: string, t: string, e: Edit)
    requires Transforms(edits, s, t) && e.Fits(t)
    ensures Transforms(edits + [e], s, e.Apply(t))
  {
    assert Transforms([e], t, e.Apply(t));
    TransformsConcat(edits, [e], s, t, e.Apply(t));
  }

  lemma InitThenLast(s: string)
    requires s != []
    ensures Init(s) + [Last(s)] == s
  {
  }

  lemma DeleteAppended(t: string, c: char)
    ensures Delete(|t|).Fits(t + [c]) && Delete(|t|).Apply(t + [c]) == t
  {
    assert (t + [c])[..|t|] + (t + [c])[|t| + 1..] == t;
  }

  lemma InsertLast(t: string)
    requires t != []
    ensures Insert(|t| - 1, Last(t)).Fits(Init(t)) && Insert(|t| - 1, Last(t)).Apply(Init(t)) == t
  {
    assert Init(t)[..|t| - 1] + [Last(t)] + Init(t)[|t| - 1..] == t;
  }

  lemma SubstituteLast(t: string, c: char)
    requires t != []
    ensures var e := Substitute(|t| - 1, Last(t));
            e.Fits(Init(t) + [c]) && e.Apply(Init(t) + [c]) == t
  {
  }

  /** Extending a script for the prefixes to the last characters: drop one, add one, or align both. */
  lemma ThenDeleteLast(edits: seq<Edit>, s: string, t: string) returns (longer: seq<Edit>)
    requires s != [] && Transforms(edits, Init(s), t)
    ensures Transforms(longer, s, t) && |longer| == |edits| + 1
  {
    InitThenLast(s);
    TransformsWithSuffix(edits, Init(s), t, [Last(s)]);
    DeleteAppended(t, Last(s));
    TransformsThen(edits, s, t + [Last(s)], Delete(|t|));
    longer := edits + [Delete(|t|)];
  }

  lemma ThenInsertLast(edits: seq<Edit>, s: string, t: string) returns (longer: seq<Edit>)
    requires t != [] && Transforms(edits, s, Init(t))
    ensures Transforms(longer, s, t) && |longer| == |edits| + 1
  {
    var e := Insert(|t| - 1, Last(t));
    InsertLast(t);
    TransformsThen(edits, s, Init(t), e);
    longer := edits + [e];
  }

  lemma ThenAlignLast(edits: seq<Edit>, s: string, t: string) returns (longer: seq<Edit>)
    requires s != [] && t != [] && Transforms(edits, Init(s), Init(t))
    ensures Transforms(longer, s, t)
    ensures |longer| == |edits| + if Last(s) == Last(t) then 0 else 1
  {
    InitThenLast(s);
    TransformsWithSuffix(edits, Init(s), Init(t), [Last(s)]);
    if Last(s) == Last(t) {
      InitThenLast(t);
      longer := edits;
    } else {
      var e := Substitute(|t| - 1, Last(t));
      SubstituteLast(t, Last(s));
      TransformsThen(edits, s, Init(t) + [Last(s)], e);
      longer := edits + [e];
    }
  }

  lemma {:induction false} ScriptExists(s: string, t: string) returns (edits: seq<Edit>)
    ensures Transforms(edits, s, t) && |edits| == Distance(s, t)
    decreases |s| + |t|
  {
    if s == [] && t == [] {
      edits := [];
    } else if t == [] || (s != [] && Distance(s, t) == Distance(Init(s), t) + 1) {
      edits := ScriptExists(Init(s), t);
      edits := ThenDeleteLast(edits, s, t);
    } else if s == [] || Distance(s, t) == Distance(s, Init(t)) + 1 {
      edits := ScriptExists(s, Init(t));
      edits := ThenInsertLast(edits, s, t);
    } else {
      edits := ScriptExists(Init(s), Init(t));
      edits := ThenAlignLast(edits, s, t);
    }
  }

  lemma {:induction false} CommonSuffix(s: string, t: string, suffix: string)
    ensures Distance(s + suffix, t + suffix) <= Distance(s, t)
  {
    if suffix == [] {
      assert s + suffix == s && t + suffix == t;
    } else {
      CommonSuffix(s, t, Init(suffix));
      assert Init(s + suffix) == s + Init(suffix) && Init(t + suffix) == t + Init(suffix);
    }
  }

  /** Strings that agree but for at most one character after a common prefix are at distance <= 1. */
  lemma OneCharacterApart(p: string, c: char, d: char)
    ensures Distance(p, p + [c]) <= 1 && Distance(p + [c], p) <= 1 && Distance(p + [c], p + [d]) <= 1
  {
    ZeroExactlyOnEquality(p, p);
    assert Init(p + [c]) == p && Init(p + [d]) == p;
    if p == [] {
      assert Distance([], []) == 0;
    }
  }

  lemma CharacterAndSuffix(p: string, c: char, d: char, rest: string)
    ensures Distance(p + rest, p + [c] + rest) <= 1 && Distance(p + [c] + rest, p + rest) <= 1
    ensures Distance(p + [c] + rest, p + [d] + rest) <= 1
  {
    OneCharacterApart(p, c, d);
    CommonSuffix(p, p + [c], rest);
    CommonSuffix(p + [c], p, rest);
    CommonSuffix(p + [c], p + [d], rest);
  }

  /** A single edit moves a string by a distance of at most one. */
  lemma OneEdit(e: Edit, s: string)
    requires e.Fits(s)
    ensures Distance(s, e.Apply(s)) <= 1
  {
    match e
    case Insert(pos, c) =>
      assert s == s[..pos] + s[pos..];
      CharacterAndSuffix(s[..pos], c, c, s[pos..]);
    case Delete(pos) =>
      assert s == s[..pos] + [s[pos]] + s[pos + 1..];
      CharacterAndSuffix(s[..pos], s[pos], s[pos], s[pos + 1..]);
    case Substitute(pos, c) =>
      assert s == s[..pos] + [s[pos]] + s[pos + 1..];
      assert e.Apply(s) == s[..pos] + [c] + s[pos + 1..];
      CharacterAndSuffix(s[..pos], s[pos], c, s[pos + 1..]);
  }

  lemma {:induction false} NoShorterScript(edits: seq<Edit>, s: string, t: string)
    requires Transforms(edits, s, t)
    ensures Distance(s, t) <= |edits|
  {
    if edits == [] {
      ZeroExactlyOnEquality(s, t);
    } else {
      var s' := edits[0].Apply(s);
      NoShorterScript(edits[1..], s', t);
      OneEdit(edits[0], s);
      Triangle(s, s', t);
    }
  }

  lemma DistanceIsEditDistance(s: string, t: string)
    ensures IsEditDistance(s, t, Distance(s, t))
  {
    var edits := ScriptExists(s, t);
    forall edits | Transforms(edits, s, t) ensures Distance(s, t) <= |edits| {
      NoShorterScript(edits, s, t);
    }
  }

  /** The edit distance is unique, so any value with that property is `Distance`. */
  lemma EditDistanceUnique(s: string, t: string, d: nat)
    requires IsEditDistance(s, t, d)
    ensures d == Distance(s, t)
  {
    DistanceIsEditDistance(s, t);
    var e1 :| Transforms(e1, s, t) && |e1| == d;
    var e2 :| Transforms(e2, s, t) && |e2| == Distance(s, t);
  }
}
