/**
Trimming white space off both ends of a sequence, for whichever elements count as white space.
*/
module Trimming {
  function TrimStart<T>(space: T -> bool, s: seq<T>): (t: seq<T>)
    ensures |t| <= |s|
  {
    if s != [] && space(s[0]) then TrimStart(space, s[1..]) else s
  }

  function TrimEnd<T>(space: T -> bool, s: seq<T>): (t: seq<T>)
    ensures t <= s
  {
    if s != [] && space(s[|s| - 1]) then TrimEnd(space, s[..|s| - 1]) else s
  }

  function Trim<T>(space: T -> bool, s: seq<T>): seq<T> {
    TrimEnd(space, TrimStart(space, s))
  }

  ghost predicate AllSpace<T>(space: T -> bool, s: seq<T>) {
    forall i | 0 <= i < |s| :: space(s[i])
  }

  /** Nothing, or something that neither starts nor ends with white space. */
  ghost predicate Trimmed<T>(space: T -> bool, s: seq<T>) {
    s == [] || (!space(s[0]) && !space(s[|s| - 1]))
  }

  lemma {:induction false} TrimStartOf<T>(space: T -> bool, lead: seq<T>, s: seq<T>)
    requires AllSpace(space, lead) && (s == [] || !space(s[0]))
    ensures TrimStart(space, lead + s) == s
    decreases |lead|
  {
    if lead == [] {
      assert lead + s == s;
    } else {
      assert (lead + s)[1..] == lead[1..] + s;
      TrimStartOf(space, lead[1..], s);
    }
  }

  lemma {:induction false} TrimEndOf<T>(space: T -> bool, s: seq<T>, trail: seq<T>)
    requires AllSpace(space, trail) && (s == [] || !space(s[|s| - 1]))
    ensures TrimEnd(space, s + trail) == s
    decreases |trail|
  {
    if trail == [] {
      assert s + trail == s;
    } else {
      var init := trail[..|trail| - 1];
      assert (s + trail)[..|s + trail| - 1] == s + init;
      assert (s + trail)[|s + trail| - 1] == trail[|trail| - 1];
      TrimEndOf(space, s, init);
    }
  }

  lemma {:induction false} TrimStartSplits<T>(space: T -> bool, s: seq<T>) returns (lead: seq<T>)
    ensures var t := TrimStart(space, s);
            s == lead + t && AllSpace(space, lead) && (t == [] || !space(t[0]))
  {
    lead := [];
    if s != [] && space(s[0]) {
      var later := TrimStartSplits(space, s[1..]);
      lead := [s[0]] + later;
      assert s == [s[0]] + s[1..];
      Reassociate([s[0]], later, TrimStart(space, s[1..]));
    }
  }

  lemma {:induction false} TrimEndSplits<T>(space: T -> bool, s: seq<T>) returns (trail: seq<T>)
    ensures var t := TrimEnd(space, s);
            s == t + trail && AllSpace(space, trail) && (t == [] || !space(t[|t| - 1]))
  {
    trail := [];
    if s != [] && space(s[|s| - 1]) {
      var earlier := TrimEndSplits(space, s[..|s| - 1]);
      trail := earlier + [s[|s| - 1]];
    }
  }

  lemma StillTrimmed<T>(space: T -> bool, t: seq<T>, u: seq<T>)
    requires u <= t && (t == [] || !space(t[0])) && (u == [] || !space(u[|u| - 1]))
    ensures Trimmed(space, u)
  {
  }

  lemma Reassociate<T>(a: seq<T>, b: seq<T>, c: seq<T>)
    ensures a + (b + c) == a + b + c
  {
  }

  /** What is left after trimming, and what was taken off. */
  lemma TrimSplits<T>(space: T -> bool, s: seq<T>) returns (lead: seq<T>, trail: seq<T>)
    ensures s == lead + Trim(space, s) + trail && AllSpace(space, lead) && AllSpace(space, trail)
    ensures Trimmed(space, Trim(space, s))
  {
    var t := TrimStart(space, s);
    lead := TrimStartSplits(space, s);
    trail := TrimEndSplits(space, t);
    Reassociate(lead, Trim(space, s), trail);
    StillTrimmed(space, t, Trim(space, s));
  }

  /** Trimming takes exactly the white space off both ends. */
  lemma TrimOf<T>(space: T -> bool, lead: seq<T>, s: seq<T>, trail: seq<T>)
    requires AllSpace(space, lead) && AllSpace(space, trail) && Trimmed(space, s)
    ensures Trim(space, lead + s + trail) == s
  {
    if s == [] {
      assert lead + s + trail == (lead + trail) + [];
      TrimStartOf(space, lead + trail, []);
    } else {
      assert lead + s + trail == lead + (s + trail);
      TrimStartOf(space, lead, s + trail);
      TrimEndOf(space, s, trail);
    }
  }

  /** More white space around a text changes nothing. */
  lemma TrimAround<T>(space: T -> bool, lead: seq<T>, s: seq<T>, trail: seq<T>)
    requires AllSpace(space, lead) && AllSpace(space, trail)
    ensures Trim(space, lead + s + trail) == Trim(space, s)
  {
    var a, b := TrimSplits(space, s);
    var t := Trim(space, s);
    Reassociate(lead, a + t, b);
    Reassociate(lead, a, t);
    Reassociate(lead + a + t, b, trail);
    assert lead + s + trail == (lead + a) + t + (b + trail);
    TrimOf(space, lead + a, t, b + trail);
  }
}
