/**
 * `generar_folio_unico`: draw folios in [1000, 9999] until one is not yet
 * used by a reservation.
 */
module Folio {

  import opened Wrappers
  import opened Records

  /** A folio the generator may hand out. */
  predicate IsFresh(res: seq<Reservation>, f: int)
  {
    MinFolio <= f <= MaxFolio && !HasFolio(res, f)
  }

  /**
   * The draw `generar_folio_unico` returns, reading the values
   * `random.randint(1000, 9999)` gives from draw `from` on: the first one no
   * reservation uses.
   */
  function FirstFreeFrom(res: seq<Reservation>, draws: seq<int>, from: nat): (k: Option<nat>)
    requires from <= |draws|
    requires forall j :: 0 <= j < |draws| ==> MinFolio <= draws[j] <= MaxFolio
    ensures k.Some? ==> from <= k.value < |draws| && IsFresh(res, draws[k.value])
    ensures forall j :: from <= j < (if k.Some? then k.value else |draws|) ==> HasFolio(res, draws[j])
    decreases |draws| - from
  {
    if from == |draws| then None
    else if !HasFolio(res, draws[from]) then Some(from)
    else FirstFreeFrom(res, draws, from + 1)
  }

  /** The folio the generator hands out, when some given draw is free. */
  function FreeDraw(res: seq<Reservation>, draws: seq<int>): Option<int>
    requires forall j :: 0 <= j < |draws| ==> MinFolio <= draws[j] <= MaxFolio
  {
    match FirstFreeFrom(res, draws, 0)
    case None => None
    case Some(k) => Some(draws[k])
  }

  /**
   * The retry loop. The values `random.randint(1000, 9999)` returns are given
   * as `draws`; `k` is the draw that was returned, and `None` means every
   * given draw was already taken (the program would draw again).
   */
  method GenerateFolio(res: seq<Reservation>, draws: seq<int>) returns (r: Option<int>, k: nat)
    requires forall j :: 0 <= j < |draws| ==> MinFolio <= draws[j] <= MaxFolio
    ensures r == FreeDraw(res, draws)
    ensures r.Some? ==> FirstFreeFrom(res, draws, 0) == Some(k)
  {
    k := 0;
    while k < |draws|
      invariant k <= |draws|
      invariant FirstFreeFrom(res, draws, k) == FirstFreeFrom(res, draws, 0)
    {
      var folio := draws[k];
      if !HasFolio(res, folio) {
        return Some(folio), k;
      }
      k := k + 1;
    }
    return None, k;
  }

  /** The folios in use. */
  function UsedFolios(res: seq<Reservation>): (s: set<int>)
    ensures |s| <= |res|
    ensures forall f :: f in s <==> HasFolio(res, f)
  {
    if res == [] then {}
    else
      var init := res[..|res| - 1];
      assert forall i :: 0 <= i < |init| ==> init[i] == res[i];
      UsedFolios(init) + {res[|res| - 1].folio}
  }

  /** The integers `lo <= x < hi`. */
  function Interval(lo: int, hi: int): (s: set<int>)
    requires lo <= hi
    ensures |s| == hi - lo
    ensures forall x :: x in s <==> lo <= x < hi
    decreases hi - lo
  {
    if lo == hi then {} else Interval(lo, hi - 1) + {hi - 1}
  }

  /** While fewer than 9000 reservations exist, some folio is still free,
      so a draw can succeed. */
  lemma FreeFolioExists(res: seq<Reservation>)
    requires |res| < MaxFolio - MinFolio + 1
    ensures exists f :: IsFresh(res, f)
  {
    var all := Interval(MinFolio, MaxFolio + 1);
    var used := UsedFolios(res);
    if all <= used {
      assert |all| <= |used| by {
        SubsetCardinality(all, used);
      }
      assert false;
    }
    var f :| f in all && f !in used;
    assert IsFresh(res, f);
  }

  lemma SubsetCardinality(a: set<int>, b: set<int>)
    requires a <= b
    ensures |a| <= |b|
  {
    assert b == a + (b - a);
  }
}
