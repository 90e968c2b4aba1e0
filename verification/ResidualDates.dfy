/**
 * Clearing issue dates that a reprint left behind (p66_fixup_residual_issue_pollution.py)
 * and the check that finds them (p66_production_bulk_apply.py).
 */
module ResidualDates {
  import opened Common

  const FIRST_PRINT := "FIRST_PRINT"

  /** Dates are day numbers; the kind is None or a text. */
  datatype Variant = Variant(kind: Option<string>, printingFoc: Option<int>, printingRelease: Option<int>)

  /** `(v.printing_kind or FIRST) != FIRST`: an empty kind counts as a first print. */
  predicate IsReprint(v: Variant) {
    v.kind.Some? && v.kind.value != "" && v.kind.value != FIRST_PRINT
  }

  datatype Dates = Dates(foc: Option<int>, release: Option<int>, original: Option<int>)

  predicate PollutesFoc(d: Dates, v: Variant) {
    IsReprint(v) && v.printingFoc.Some? && d.foc == v.printingFoc
  }

  predicate PollutesRelease(d: Dates, v: Variant) {
    IsReprint(v) && v.printingRelease.Some? && d.release == v.printingRelease && d.original != d.release
  }

  predicate FocPolluted(d: Dates, vs: seq<Variant>) { exists v <- vs :: PollutesFoc(d, v) }

  predicate ReleasePolluted(d: Dates, vs: seq<Variant>) { exists v <- vs :: PollutesRelease(d, v) }

  /** The dates with exactly the polluted ones cleared. */
  function Cleared(d: Dates, vs: seq<Variant>): Dates {
    Dates(if FocPolluted(d, vs) then None else d.foc,
          if ReleasePolluted(d, vs) then None else d.release,
          d.original)
  }

  class ReleaseIssue {
    var foc: Option<int>
    var release: Option<int>
    const original: Option<int>

    constructor (d: Dates)
      ensures Current() == d
    {
      foc, release, original := d.foc, d.release, d.original;
    }

    function Current(): Dates
      reads this
    {
      Dates(foc, release, original)
    }

    /** `clear_residual`: one pass over the variants, clearing as it goes. */
    method ClearResidual(variants: seq<Variant>) returns (changed: bool)
      modifies this
      ensures Current() == Cleared(old(Current()), variants)
      ensures changed <==> Current() != old(Current())
    {
      ghost var d := Current();
      changed := false;
      var k := 0;
      while k < |variants|
        invariant 0 <= k <= |variants|
        invariant Current() == Cleared(d, variants[..k])
        invariant changed <==> Current() != d
      {
        var v := variants[k];
        MoreVariants(d, variants, k);
        var kind := if v.kind.Some? && v.kind.value != "" then v.kind.value else FIRST_PRINT;
        if kind != FIRST_PRINT {
          if v.printingFoc.Some? && foc == v.printingFoc {
            foc := None;
            changed := true;
          }
          if v.printingRelease.Some? && release == v.printingRelease && original != release {
            release := None;
            changed := true;
          }
        }
        k := k + 1;
      }
      assert variants[..k] == variants;
    }

    /** The `polluted` flag of `verify_applied_issue`. */
    method Verify(variants: seq<Variant>) returns (polluted: bool)
      ensures polluted <==> FocPolluted(Current(), variants) || ReleasePolluted(Current(), variants)
    {
      polluted := false;
      var k := 0;
      while k < |variants|
        invariant 0 <= k <= |variants|
        invariant polluted <==> FocPolluted(Current(), variants[..k]) || ReleasePolluted(Current(), variants[..k])
      {
        var v := variants[k];
        MoreVariants(Current(), variants, k);
        var kind := if v.kind.Some? && v.kind.value != "" then v.kind.value else FIRST_PRINT;
        if kind != FIRST_PRINT {
          if v.printingRelease.Some? && release == v.printingRelease && original != release {
            polluted := true;
          }
          if v.printingFoc.Some? && foc == v.printingFoc {
            polluted := true;
          }
        }
        k := k + 1;
      }
      assert variants[..k] == variants;
    }
  }

  lemma MoreVariants(d: Dates, vs: seq<Variant>, k: nat)
    requires k < |vs|
    ensures FocPolluted(d, vs[..k + 1]) <==> FocPolluted(d, vs[..k]) || PollutesFoc(d, vs[k])
    ensures ReleasePolluted(d, vs[..k + 1]) <==> ReleasePolluted(d, vs[..k]) || PollutesRelease(d, vs[k])
  {
    assert forall v :: v in vs[..k + 1] <==> v in vs[..k] || v == vs[k];
  }

  /** The variant is marked as something other than a first print. */
  predicate Marked(v: Variant) {
    v.kind != None && v.kind != Some("") && v.kind != Some("FIRST_PRINT")
  }

  /** Which dates go, in so many words. */
  lemma ClearedMeaning(d: Dates, vs: seq<Variant>)
    ensures var after := Cleared(d, vs);
            && after.original == d.original
            && (d.foc.Some? ==>
                  if exists i :: 0 <= i < |vs| && Marked(vs[i]) && vs[i].printingFoc == d.foc
                  then after.foc == None else after.foc == d.foc)
            && (d.release.Some? ==>
                  if d.original != d.release && exists i :: 0 <= i < |vs| && Marked(vs[i]) && vs[i].printingRelease == d.release
                  then after.release == None else after.release == d.release)
            && (d.foc == None ==> after.foc == None) && (d.release == None ==> after.release == None)
  {
    assert FocPolluted(d, vs) <==> exists i :: 0 <= i < |vs| && PollutesFoc(d, vs[i]);
    assert ReleasePolluted(d, vs) <==> exists i :: 0 <= i < |vs| && PollutesRelease(d, vs[i]);
    assert forall i :: 0 <= i < |vs| && d.foc.Some? ==>
             (PollutesFoc(d, vs[i]) <==> Marked(vs[i]) && vs[i].printingFoc == d.foc);
    assert forall i :: 0 <= i < |vs| && d.release.Some? ==>
             (PollutesRelease(d, vs[i])
              <==> Marked(vs[i]) && vs[i].printingRelease == d.release && d.original != d.release);
  }

  /**
   * Afterwards the check finds nothing in the same variants; a date is gone exactly
   * when some reprint polluted it.
   */
  lemma NothingPollutedAfterwards(d: Dates, vs: seq<Variant>)
    ensures !FocPolluted(Cleared(d, vs), vs) && !ReleasePolluted(Cleared(d, vs), vs)
    ensures d.foc.Some? ==> (Cleared(d, vs).foc == None <==> FocPolluted(d, vs))
    ensures d.release.Some? ==> (Cleared(d, vs).release == None <==> ReleasePolluted(d, vs))
  {
    forall v | v in vs
      ensures !PollutesFoc(Cleared(d, vs), v) && !PollutesRelease(Cleared(d, vs), v)
    {
    }
  }

  /** Order and repetition of the variants do not matter. */
  lemma OrderDoesNotMatter(d: Dates, vs: seq<Variant>, ws: seq<Variant>)
    requires forall v :: v in vs <==> v in ws
    ensures Cleared(d, vs) == Cleared(d, ws)
  {
  }

  /** Running it again changes nothing. */
  lemma SecondRunIsIdle(d: Dates, vs: seq<Variant>)
    ensures Cleared(Cleared(d, vs), vs) == Cleared(d, vs)
  {
    NothingPollutedAfterwards(d, vs);
  }

  /** Clearing variant by variant and clearing all at once give the same dates. */
  lemma InStages(d: Dates, vs: seq<Variant>, ws: seq<Variant>)
    ensures Cleared(Cleared(d, vs), ws) == Cleared(d, vs + ws)
  {
    assert forall v :: v in vs + ws <==> v in vs || v in ws;
    var mid := Cleared(d, vs);
    forall v | v in ws
      ensures PollutesFoc(mid, v) <==> mid.foc == d.foc && PollutesFoc(d, v)
      ensures PollutesRelease(mid, v) <==> mid.release == d.release && PollutesRelease(d, v)
    {
    }
  }
}
