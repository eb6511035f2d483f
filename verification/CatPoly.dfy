/** cat_poly_fini() in src/smcoast.c as a whole: ways are joined, trimmed to the page and closed. */
module CatPoly {
  import opened CoastLink
  import opened CoastChains
  import opened CoastJoining
  import opened CoastConnect
  import opened CoastClosing
  import opened CoastTrim

  lemma JoinedLength(ws: seq<Poly>, p: seq<nat>)
    requires Ways(ws) && p != [] && forall k :: 0 <= k < |p| ==> p[k] < |ws|
    ensures |Joined(ws, p)| >= 2
  {
  }

  /** The new ways are long enough for the second half. */
  lemma NewWaysLong(ws: seq<Poly>, rs: seq<Poly>)
    requires Ways(ws) && InRange(ws) && Detected(ws, rs, |ws|)
    ensures OpenLong(rs)
  {
    forall i | 0 <= i < |rs| && rs[i].open ensures |Nw(rs[i])| >= 2 {
      assert rs[i] == DetectedWay(ws, |ws|, i);
      JoinedLength(ws, Path(ws, i));
    }
  }

  /**
   * The ghost results are the list after linking, after joining and after trimming, and the
   * legs each way is finally made of.
   */
  method CatPolyFini(wl: array<Poly>, ignIncomplete: bool, pg: Page, c: Chart, brg: int -> real)
    returns (ghost linked: seq<Poly>, ghost joined: seq<Poly>, ghost trimmed: seq<Poly>, ghost legs: seq<seq<Leg>>)
    requires Gathered(wl[..]) && pg.Valid()
    modifies wl
    ensures SameWays(old(wl[..]), joined) && Ways(joined) && |joined| == |linked| == wl.Length
    ensures Ways(linked) && InRange(linked) && LinkOk(linked) && Detected(linked, joined, |linked|)
    ensures Clean(old(wl[..])) ==>
      && Partitioned(linked)
      && NewEdges(joined, |joined|) == OldEdges(joined, |joined|)
      && OpenWaysMaximal(joined)
    ensures TrimmedTo(c, joined, trimmed, |joined|) && TrimmedWell(c, joined, trimmed)
    ensures ignIncomplete ==> wl[..] == trimmed
    ensures !ignIncomplete ==>
      && Woven(Shore(pg, trimmed, brg), wl[..], legs)
      && LeftOpen(c, joined, trimmed, OpenSet(wl[..]))
      && (OpenSet(wl[..]) == RaggedSet(c, joined) <==> RaggedLast(c, joined, |joined|))
      && (OpenSet(wl[..]) == {} <==> forall i :: 0 <= i < |joined| && joined[i].open ==> !Ragged(c, Nw(joined[i])))
  {
    hide *;
    var ocnt;
    ocnt, linked := JoinWays(wl);
    joined := wl[..];
    LinkedRange(linked, joined);
    NewWaysLong(linked, joined);
    if ignIncomplete {
      ocnt := TrimWays(wl, c);
      trimmed := wl[..];
      legs := [];
    } else {
      trimmed, legs := CloseOpenWays(wl, pg, c, brg);
    }
  }

  lemma LinkedRange(ws: seq<Poly>, rs: seq<Poly>)
    requires SameWays(ws, rs) && Ways(rs) && LinkOk(ws)
    ensures Ways(ws) && InRange(ws) && |ws| == |rs|
  {
  }
}
