// The four table indices of a virtual address: kernel/src/memory/pmi.cpp and
// GetIndexes in kernel/src/memory/ptm.cpp.

module PageIndex {
  import opened Word

  // Virtual pages have 36-bit numbers: addresses are translated modulo 2^48.
  const PAGES: nat := 0x10_0000_0000

  // The page an address lies in.
  function PageNumber(address: nat): nat {
    address / 4096 % PAGES
  }

  // The route from PML4 to a page: one index for each of the four levels.
  function Route(page: nat): seq<nat> {
    [page / 512 / 512 / 512 % 512, page / 512 / 512 % 512, page / 512 % 512, page % 512]
  }

  function PageAt(route: seq<nat>): nat
    requires |route| == 4
  {
    ((route[0] * 512 + route[1]) * 512 + route[2]) * 512 + route[3]
  }

  predicate IsRoute(path: seq<nat>) {
    |path| == 4 && forall i :: 0 <= i < 4 ==> path[i] < 512
  }

  /** Pages and routes are in bijection: different pages never share all four indices. */
  lemma RouteExact(page: nat)
    ensures IsRoute(Route(page))
    ensures page < PAGES ==> PageAt(Route(page)) == page
  {
  }

  lemma PageAtExact(route: seq<nat>)
    requires IsRoute(route)
    ensures PageAt(route) < PAGES && Route(PageAt(route)) == route
  {
    var a := route[0] * 512 + route[1];
    var b := a * 512 + route[2];
    Digit(PageAt(route), b, route[3]);
    Digit(b, a, route[2]);
    Digit(a, route[0], route[1]);
    assert PageAt(route) / 512 == b && b / 512 == a && a / 512 == route[0];
    assert Route(PageAt(route)) == [route[0], route[1], route[2], route[3]];
  }

  lemma Digit(x: nat, t: nat, low: nat)
    requires x == 512 * t + low
    ensures x % 512 == low % 512 && x / 512 == t + low / 512
  {
  }

  lemma RouteOfAddress(address: nat)
    ensures Route(address / 4096) == Route(PageNumber(address))
  {
    var page := address / 4096;
    var q, low := page / PAGES, page % PAGES;
    Digit(page, 0x800_0000 * q, low);
    Digit(page / 512, 0x4_0000 * q, low / 512);
    Digit(page / 512 / 512, 0x200 * q, low / 512 / 512);
    Digit(page / 512 / 512 / 512, q, low / 512 / 512 / 512);
  }

  class PageMapIndexer {
    var PDP_i: nat
    var PD_i: nat
    var PT_i: nat
    var P_i: nat

    constructor (virtualAddress: nat)
      ensures [PDP_i, PD_i, PT_i, P_i] == Route(PageNumber(virtualAddress))
    {
      var address := Shr(virtualAddress, 12);
      P_i := And(address, 0x1ff);
      address := Shr(address, 9);
      PT_i := And(address, 0x1ff);
      address := Shr(address, 9);
      PD_i := And(address, 0x1ff);
      address := Shr(address, 9);
      PDP_i := And(address, 0x1ff);
      new;
      Digits(virtualAddress);
    }
  }

  datatype PageLevelIndexes = PageLevelIndexes(L4_i: nat, L3_i: nat, L2_i: nat, L1_i: nat)

  method GetIndexes(address: nat) returns (out: PageLevelIndexes)
    ensures [out.L4_i, out.L3_i, out.L2_i, out.L1_i] == Route(PageNumber(address))
  {
    var addr := Shr(address, 12);
    var l1 := And(addr, 0x01FF);
    addr := Shr(addr, 9);
    var l2 := And(addr, 0x01FF);
    addr := Shr(addr, 9);
    var l3 := And(addr, 0x01FF);
    addr := Shr(addr, 9);
    var l4 := And(addr, 0x01FF);
    Digits(address);
    out := PageLevelIndexes(l4, l3, l2, l1);
  }

  /** Shifting and masking takes the base-512 digits of the page number, whatever the bits above the 48th. */
  lemma Digits(address: nat)
    ensures var a1 := Shr(address, 12); var a2 := Shr(a1, 9); var a3 := Shr(a2, 9); var a4 := Shr(a3, 9);
            [And(a4, 0x1ff), And(a3, 0x1ff), And(a2, 0x1ff), And(a1, 0x1ff)] == Route(PageNumber(address))
  {
    var a1 := Shr(address, 12);
    var a2 := Shr(a1, 9);
    var a3 := Shr(a2, 9);
    var a4 := Shr(a3, 9);
    ShrIsDivision(address);
    Low(a1);
    Low(a2);
    Low(a3);
    Low(a4);
    RouteOfAddress(address);
  }

  lemma Low(a: nat)
    ensures And(a, 0x1ff) == a % 512 && Shr(a, 9) == a / 512
  {
    ShrIsDivision(a);
    OnesValues();
    AndOnes(a, 9);
  }
}
