/**
  The allocation rule the record segments and the string segments of an arena share, as a value: stay in the current
  segment while the reservation fits, else go on to the next one, made anew only at the end of the list.
  */
module Bump {
  import opened Common
  import opened Truncation

  /** The capacities of the segments, the current one, and how much of it is used. All later ones are empty. */
  datatype Bump = Bump(caps: seq<nat>, cur: nat, used: nat) {
    predicate Ok() { cur < |caps| && used <= caps[cur] }
  }

  /** Where a request was served: the segment and the range in it. */
  datatype Place = Place(segment: nat, offset: nat, length: nat)

  /** The state in which the current segment has room for the reservation. */
  function Fit(b: Bump, reserve: nat, min: nat): (r: Bump)
    requires b.Ok()
    ensures r.Ok() && reserve <= r.caps[r.cur] - r.used && b.caps <= r.caps && b.cur <= r.cur
    ensures r.cur == b.cur ==> r == b
    decreases |b.caps| - b.cur
  {
    if reserve <= b.caps[b.cur] - b.used then b
    else if b.cur == |b.caps| - 1 then Bump(b.caps + [Max(min, reserve)], b.cur + 1, 0)
    else Fit(Bump(b.caps, b.cur + 1, 0), reserve, min)
  }

  /**
    First fit: the current segment if enough of it is left, else the first later one that is large enough, which is then
    empty, else a new one of the size asked for, but not below the minimum.
    */
  lemma {:induction false} FirstFit(b: Bump, reserve: nat, min: nat)
    requires b.Ok()
    ensures var r := Fit(b, reserve, min);
      && b.cur <= r.cur <= |b.caps|
      && (forall i :: b.cur <= i < r.cur ==> b.caps[i] - (if i == b.cur then b.used else 0) < reserve)
      && (if r.cur < |b.caps| then r.caps == b.caps && reserve <= b.caps[r.cur] - r.used
          else r.caps == b.caps + [if reserve <= min then min else reserve])
      && r.used == (if r.cur == b.cur then b.used else 0)
    decreases |b.caps| - b.cur
  {
    if reserve > b.caps[b.cur] - b.used && b.cur < |b.caps| - 1 {
      FirstFit(Bump(b.caps, b.cur + 1, 0), reserve, min);
    }
  }

  /** The range handed out lies at the start of what is left of that segment, and takes as much of it as is used. */
  lemma ServedFirst(b: Bump, r: Request, min: nat)
    requires b.Ok() && Proper(r)
    ensures var fit, p, after := Fit(b, r.reserve, min), PlaceOf(b, r, min), Serve(b, r, min);
      && p.segment == fit.cur && p.offset == fit.used && p.length == r.use
      && after.caps == fit.caps && after.cur == fit.cur && after.used == fit.used + r.use
  {
    hide Fit;
  }

  predicate Proper(r: Request) { r.use <= r.reserve }

  function Serve(b: Bump, r: Request, min: nat): (b': Bump)
    requires b.Ok() && Proper(r)
    ensures b'.Ok() && b.caps <= b'.caps
  {
    var f := Fit(b, r.reserve, min);
    f.(used := f.used + r.use)
  }

  function PlaceOf(b: Bump, r: Request, min: nat): Place
    requires b.Ok()
  {
    var f := Fit(b, r.reserve, min);
    Place(f.cur, f.used, r.use)
  }

  predicate AllProper(rs: seq<Request>) {
    forall i :: 0 <= i < |rs| ==> Proper(rs[i])
  }

  function Run(b: Bump, rs: seq<Request>, min: nat): (b': Bump)
    requires b.Ok() && AllProper(rs)
    ensures b'.Ok() && b.caps <= b'.caps
    decreases |rs|
  {
    if rs == [] then b else Run(Serve(b, rs[0], min), rs[1..], min)
  }

  function Places(b: Bump, rs: seq<Request>, min: nat): (ps: seq<Place>)
    requires b.Ok() && AllProper(rs)
    ensures |ps| == |rs|
    decreases |rs|
  {
    if rs == [] then [] else [PlaceOf(b, rs[0], min)] + Places(Serve(b, rs[0], min), rs[1..], min)
  }

  lemma {:induction false} RunConcat(b: Bump, rs: seq<Request>, ts: seq<Request>, min: nat)
    requires b.Ok() && AllProper(rs) && AllProper(ts)
    ensures Run(b, rs + ts, min) == Run(Run(b, rs, min), ts, min)
    decreases |rs|
  {
    if rs == [] {
      assert rs + ts == ts;
    } else {
      assert (rs + ts)[1..] == rs[1..] + ts;
      RunConcat(Serve(b, rs[0], min), rs[1..], ts, min);
    }
  }

  lemma RunThenServe(b: Bump, rs: seq<Request>, r: Request, min: nat)
    requires b.Ok() && AllProper(rs) && Proper(r)
    ensures AllProper(rs + [r]) && Run(b, rs + [r], min) == Serve(Run(b, rs, min), r, min)
  {
    RunConcat(b, rs, [r], min);
    RunOne(Run(b, rs, min), r, min);
  }

  lemma RunOne(b: Bump, r: Request, min: nat)
    requires b.Ok() && Proper(r)
    ensures AllProper([r]) && Run(b, [r], min) == Serve(b, r, min)
  {
    hide Serve;
    assert [r][1..] == [];
  }

  // ---------------------------------------------------------------- ranges handed out

  /** p lies in its segment, at or after what b has used. */
  predicate After(b: Bump, p: Place) {
    b.cur < p.segment || (b.cur == p.segment && b.used <= p.offset)
  }

  /** Two ranges that share no byte, p before q. */
  predicate Before(p: Place, q: Place) {
    p.segment < q.segment || (p.segment == q.segment && p.offset + p.length <= q.offset)
  }

  lemma {:induction false} PlacesAfter(b: Bump, rs: seq<Request>, min: nat, i: nat)
    requires b.Ok() && AllProper(rs) && i < |rs|
    ensures var p := Places(b, rs, min)[i]; var caps := Run(b, rs, min).caps;
      After(b, p) && p.segment < |caps| && p.offset + p.length <= caps[p.segment] && p.length == rs[i].use
    decreases |rs|
  {
    var b' := Serve(b, rs[0], min);
    if i == 0 {
      assert Run(b, rs, min) == Run(b', rs[1..], min);
      assert b'.caps <= Run(b', rs[1..], min).caps;
    } else {
      PlacesAfter(b', rs[1..], min, i - 1);
      assert After(b', Places(b', rs[1..], min)[i - 1]);
    }
  }

  /** All ranges handed out since the last reset lie inside their segments and are pairwise disjoint. */
  lemma {:induction false} PlacesDisjoint(b: Bump, rs: seq<Request>, min: nat, i: nat, j: nat)
    requires b.Ok() && AllProper(rs) && i < j < |rs|
    ensures Before(Places(b, rs, min)[i], Places(b, rs, min)[j])
    decreases |rs|
  {
    var b' := Serve(b, rs[0], min);
    if i == 0 {
      PlacesAfter(b', rs[1..], min, j - 1);
    } else {
      PlacesDisjoint(b', rs[1..], min, i - 1, j - 1);
    }
  }

  // ---------------------------------------------------------------- recycling

  lemma PrefixAt(s: seq<nat>, t: seq<nat>, i: nat)
    requires s <= t && i < |s|
    ensures t[i] == s[i]
  {
  }

  /** A list that has the segments this request would reach serves it from the same place, and grows no further. */
  lemma {:induction false} FitReplays(b: Bump, caps: seq<nat>, reserve: nat, min: nat)
    requires b.Ok() && Fit(b, reserve, min).caps <= caps
    ensures b.caps <= caps && Bump(caps, b.cur, b.used).Ok()
    ensures Fit(Bump(caps, b.cur, b.used), reserve, min) == Fit(b, reserve, min).(caps := caps)
    decreases |b.caps| - b.cur
  {
    var f := Fit(b, reserve, min);
    PrefixAt(f.caps, caps, b.cur);
    PrefixAt(b.caps, f.caps, b.cur);
    if reserve > b.caps[b.cur] - b.used {
      PrefixAt(f.caps, caps, b.cur + 1);
      if b.cur < |b.caps| - 1 {
        FitReplays(Bump(b.caps, b.cur + 1, 0), caps, reserve, min);
      }
    }
  }

  lemma ServeReplays(b: Bump, caps: seq<nat>, r: Request, min: nat)
    requires b.Ok() && Proper(r) && Serve(b, r, min).caps <= caps
    ensures Bump(caps, b.cur, b.used).Ok()
    ensures PlaceOf(Bump(caps, b.cur, b.used), r, min) == PlaceOf(b, r, min)
    ensures Serve(Bump(caps, b.cur, b.used), r, min) == Serve(b, r, min).(caps := caps)
  {
    FitReplays(b, caps, r.reserve, min);
    hide Fit;
  }

  lemma {:induction false} RunReplays(b: Bump, caps: seq<nat>, rs: seq<Request>, min: nat)
    requires b.Ok() && AllProper(rs) && Run(b, rs, min).caps <= caps
    ensures Bump(caps, b.cur, b.used).Ok()
    ensures Places(Bump(caps, b.cur, b.used), rs, min) == Places(b, rs, min)
    ensures Run(Bump(caps, b.cur, b.used), rs, min) == Run(b, rs, min).(caps := caps)
    decreases |rs|
  {
    if rs == [] {
      PrefixAt(b.caps, caps, b.cur);
    } else {
      hide Serve, PlaceOf, Proper;
      var b', tail := Serve(b, rs[0], min), rs[1..];
      assert AllProper(tail) && Run(b, rs, min) == Run(b', tail, min);
      PrefixTrans(b'.caps, Run(b', tail, min).caps, caps);
      ServeReplays(b, caps, rs[0], min);
      RunReplays(b', caps, tail, min);
    }
  }

  lemma PrefixTrans(s: seq<nat>, t: seq<nat>, u: seq<nat>)
    requires s <= t && t <= u
    ensures s <= u
  {
  }

  /**
    Recycling: after a reset, a request sequence that some earlier run already served, whatever was served since, gets
    the same places again and creates no segment.
    */
  lemma ReplayAfterReset(first: Bump, later: Bump, rs: seq<Request>, min: nat)
    requires first.Ok() && first.cur == 0 && first.used == 0 && AllProper(rs)
    requires Run(first, rs, min).caps <= later.caps
    ensures var again := Bump(later.caps, 0, 0);
      && again.Ok()
      && Places(again, rs, min) == Places(first, rs, min)
      && Run(again, rs, min).caps == later.caps
  {
    RunReplays(first, later.caps, rs, min);
  }
}
