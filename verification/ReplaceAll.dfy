/** replace_all of src/util.h, which edits a string in place. */
module ReplaceAll {
  import opened Common

  /** std::string::find from a position. */
  function Find(s: string, f: string, pos: nat): (i: Option<nat>)
    ensures i.Some? ==> pos <= i.value && OccursAt(s, f, i.value) && forall j | pos <= j < i.value :: !OccursAt(s, f, j)
    ensures i.None? ==> forall j | pos <= j :: !OccursAt(s, f, j)
    decreases |s| - pos
  {
    if pos + |f| > |s| then None
    else if OccursAt(s, f, pos) then Some(pos)
    else Find(s, f, pos + 1)
  }

  /** The text between the occurrences of f, found from the left, without overlap. */
  function Split(s: string, f: string): (pieces: seq<string>)
    requires |f| > 0
    ensures |pieces| > 0
    decreases |s|
  {
    match Find(s, f, 0)
    case None => [s]
    case Some(i) => [s[..i]] + Split(s[i + |f|..], f)
  }

  function Join(pieces: seq<string>, between: string): string
    requires |pieces| > 0
  {
    if |pieces| == 1 then pieces[0] else pieces[0] + between + Join(pieces[1..], between)
  }

  /** No piece but the last can be followed by an earlier occurrence than the one
      that ends it, and the last holds none. */
  ghost predicate Leftmost(pieces: seq<string>, f: string, rest: string)
    requires |pieces| > 0
  {
    if |pieces| == 1 then pieces[0] == rest && forall i | 0 <= i :: !OccursAt(rest, f, i)
    else
      && |pieces[0]| + |f| <= |rest| && rest[..|pieces[0]|] == pieces[0]
      && OccursAt(rest, f, |pieces[0]|) && (forall i | 0 <= i < |pieces[0]| :: !OccursAt(rest, f, i))
      && Leftmost(pieces[1..], f, rest[|pieces[0]| + |f|..])
  }

  /** Putting the occurrences back gives the string. */
  lemma {:induction false} SplitJoins(s: string, f: string)
    requires |f| > 0
    ensures Join(Split(s, f), f) == s
    decreases |s|
  {
    match Find(s, f, 0)
    case None =>
    case Some(i) =>
      SplitJoins(s[i + |f|..], f);
      assert Split(s, f)[1..] == Split(s[i + |f|..], f);
      assert s == s[..i] + f + s[i + |f|..];
  }

  /** Exactly one way of taking a string apart goes from the left. */
  lemma {:induction false} SplitIsTheLeftmost(s: string, f: string, pieces: seq<string>)
    requires |f| > 0 && |pieces| > 0
    ensures Leftmost(pieces, f, s) <==> pieces == Split(s, f)
    decreases |s|
  {
    match Find(s, f, 0)
    case None =>
    case Some(i) =>
      var split := Split(s, f);
      assert split[1..] == Split(s[i + |f|..], f);
      SplitIsTheLeftmost(s[i + |f|..], f, split[1..]);
      if |pieces| > 1 {
        SplitIsTheLeftmost(s[i + |f|..], f, pieces[1..]);
        if Leftmost(pieces, f, s) {
          assert |pieces[0]| == i;
          assert pieces == [pieces[0]] + pieces[1..];
        }
      }
  }

  /** What is not found and not put in, for one character, is gone. */
  lemma {:induction false} CharacterIsGone(s: string, c: char, r: string)
    requires c !in r
    ensures c !in Join(Split(s, [c]), r)
    decreases |s|
  {
    match Find(s, [c], 0)
    case None =>
      if c in s {
        var i :| 0 <= i < |s| && s[i] == c;
        assert OccursAt(s, [c], i);
      }
    case Some(i) =>
      CharacterIsGone(s[i + 1..], c, r);
      assert Split(s, [c])[1..] == Split(s[i + 1..], [c]);
      forall j | 0 <= j < i ensures s[j] != c {
        assert !OccursAt(s, [c], j);
      }
  }

  lemma OccursInRest(done: string, rest: string, f: string, i: nat)
    ensures OccursAt(done + rest, f, |done| + i) <==> OccursAt(rest, f, i)
  {
    if i + |f| <= |rest| {
      assert (done + rest)[|done| + i..|done| + i + |f|] == rest[i..i + |f|];
    }
  }

  function Shifted(i: Option<nat>, offset: nat): Option<nat> {
    if i.Some? then Some(offset + i.value) else None
  }

  /** Searching on from a position is searching the rest. */
  lemma {:induction false} FindInRest(s: string, done: string, rest: string, f: string, i: nat, pos: nat)
    requires s == done + rest && pos == |done| + i
    ensures Find(s, f, pos) == Shifted(Find(rest, f, i), |done|)
    decreases |rest| - i
  {
    OccursInRest(done, rest, f, i);
    if i + |f| > |rest| {
      assert pos + |f| > |s|;
    } else if !OccursAt(rest, f, i) {
      FindInRest(s, done, rest, f, i + 1, pos + 1);
    }
  }

  /** The replaced string. */
  function Replaced(s: string, f: string, r: string): string
    requires |f| > 0
  {
    Join(Split(s, f), r)
  }

  lemma ReplacedFirst(s: string, f: string, r: string, i: nat)
    requires |f| > 0 && Find(s, f, 0) == Some(i)
    ensures i + |f| <= |s| && Replaced(s, f, r) == s[..i] + r + Replaced(s[i + |f|..], f, r)
  {
    JoinFirst(s[..i], Split(s[i + |f|..], f), r);
  }

  lemma JoinFirst(piece: string, pieces: seq<string>, between: string)
    requires |pieces| > 0
    ensures Join([piece] + pieces, between) == piece + between + Join(pieces, between)
  {
    assert ([piece] + pieces)[1..] == pieces;
  }

  lemma Edited(done: string, rest: string, r: string, i: nat, j: nat)
    requires i <= j <= |rest|
    ensures (done + rest)[..|done| + i] + r + (done + rest)[|done| + j..] == done + rest[..i] + r + rest[j..]
  {
    assert (done + rest)[..|done| + i] == done + rest[..i];
    assert (done + rest)[|done| + j..] == rest[j..];
  }

  datatype Round = Round(s: string, done: string, rest: string)

  /** Between two rounds: the string is what is done and what is left to search,
      and the result is on its way. */
  ghost predicate Progress(t: Round, f: string, r: string, result: string) {
    match t
    case Round(s, done, rest) => |f| > 0 && s == done + rest && result == done + Replaced(rest, f, r)
  }

  lemma Starts(s: string, f: string, r: string)
    requires |f| > 0
    ensures Progress(Round(s, "", s), f, r, Replaced(s, f, r))
  {
    assert "" + s == s && "" + Replaced(s, f, r) == Replaced(s, f, r);
  }

  lemma Associative(a: string, b: string, c: string, d: string)
    ensures a + (b + c + d) == a + b + c + d
  {
  }

  /** One round: the first occurrence in rest is at index i of it. */
  lemma ResultStays(t: Round, done: string, rest: string, f: string, r: string, i: nat)
    requires |f| > 0 && Find(t.rest, f, 0) == Some(i) && i + |f| <= |t.rest|
    requires done == t.done + t.rest[..i] + r && rest == t.rest[i + |f|..]
    ensures t.done + Replaced(t.rest, f, r) == done + Replaced(rest, f, r)
  {
    ReplacedFirst(t.rest, f, r, i);
    Associative(t.done, t.rest[..i], r, Replaced(rest, f, r));
  }

  lemma StringStays(t: Round, s: string, done: string, rest: string, f: string, r: string, pos: nat, i: nat)
    requires t.s == t.done + t.rest && i + |f| <= |t.rest| && pos == |t.done| + i
    requires s == t.s[..pos] + r + t.s[pos + |f|..]
    requires done == t.done + t.rest[..i] + r && rest == t.rest[i + |f|..]
    ensures s == done + rest && |done| == pos + |r|
  {
    Edited(t.done, t.rest, r, i, i + |f|);
  }

  lemma SearchGoesOn(s: string, done: string, rest: string, f: string, pos: nat)
    requires s == done + rest && pos == |done|
    ensures Find(s, f, pos) == Shifted(Find(rest, f, 0), pos)
  {
    FindInRest(s, done, rest, f, 0, pos);
  }

  lemma Ends(t: Round, f: string, r: string, result: string)
    requires Progress(t, f, r, result) && Find(t.s, f, |t.done|) == None
    ensures t.s == result
  {
    SearchGoesOn(t.s, t.done, t.rest, f, |t.done|);
  }

  lemma Proceeds(t: Round, pos: nat, f: string, r: string, result: string) returns (t': Round)
    requires Progress(t, f, r, result) && Find(t.s, f, |t.done|) == Some(pos)
    ensures pos + |f| <= |t.s| && Progress(t', f, r, result)
    ensures t'.s == t.s[..pos] + r + t.s[pos + |f|..] && |t'.done| == pos + |r| && |t'.rest| < |t.rest|
  {
    SearchGoesOn(t.s, t.done, t.rest, f, |t.done|);
    var i := pos - |t.done|;
    var s, done, rest := t.s[..pos] + r + t.s[pos + |f|..], t.done + t.rest[..i] + r, t.rest[i + |f|..];
    t' := Round(s, done, rest);
    StringStays(t, s, done, rest, f, r, pos, i);
    ResultStays(t, done, rest, f, r, i);
  }

  /* When the loop ends */

  /** The loop goes through n more rounds from here. */
  predicate GoesOn(s: string, f: string, r: string, pos: nat, n: nat)
    decreases n
  {
    n == 0 || match Find(s, f, pos)
              case None => false
              case Some(i) => GoesOn(s[..i] + r + s[i + |f|..], f, r, i + |r|, n - 1)
  }

  /** The empty pattern is found wherever the search starts, again and again. */
  lemma {:induction false} EmptyPatternIsFound(s: string, r: string, pos: nat, n: nat)
    requires pos <= |s|
    ensures Find(s, "", pos) == Some(pos) && GoesOn(s, "", r, pos, n)
    decreases n
  {
    if n > 0 {
      EmptyPatternIsFound(s[..pos] + r + s[pos + 0..], r, pos + |r|, n - 1);
    }
  }

  lemma {:induction false} RoundsConsume(s: string, f: string, r: string, pos: nat, n: nat)
    requires |f| > 0 && pos <= |s| && GoesOn(s, f, r, pos, n)
    ensures n <= |s| - pos
    decreases n
  {
    if n > 0 {
      var i := Find(s, f, pos).value;
      RoundsConsume(s[..i] + r + s[i + |f|..], f, r, i + |r|, n - 1);
    }
  }

  /** The loop ends exactly if there is a pattern. */
  lemma EndlessIff(s: string, f: string, r: string)
    ensures (forall n: nat :: GoesOn(s, f, r, 0, n)) <==> f == ""
  {
    if f == "" {
      forall n: nat ensures GoesOn(s, f, r, 0, n) {
        EmptyPatternIsFound(s, r, 0, n);
      }
    } else {
      var n: nat := |s| + 1;
      if GoesOn(s, f, r, 0, n) {
        RoundsConsume(s, f, r, 0, n);
      }
      assert !GoesOn(s, f, r, 0, n);
    }
  }

  class Text {
    var str: string

    constructor (str: string)
      ensures this.str == str
    {
      this.str := str;
    }

    /** The loop of the source: what is put in is never searched. */
    method ReplaceAll(find: string, replace: string)
      requires |find| > 0
      modifies this
      ensures str == Replaced(old(str), find, replace)
    {
      ghost var t, result := Round(str, "", str), Replaced(str, find, replace);
      Starts(str, find, replace);
      var pos := 0;
      var found := Find(str, find, pos);
      while found.Some?
        invariant t.s == str && pos == |t.done| && found == Find(str, find, pos) && Progress(t, find, replace, result)
        decreases |t.rest|
      {
        pos := found.value;
        t := Proceeds(t, pos, find, replace, result);
        str := str[..pos] + replace + str[pos + |find|..];
        pos := pos + |replace|;
        found := Find(str, find, pos);
      }
      Ends(t, find, replace, result);
    }
  }
}
