/** The reserve arithmetic of `proc_allocate_pages_write`: the two clamps on a request, the page
    array, and the fill loop with its watermark, in a zone that nobody else touches. */
module PageReserve {
  import opened Common
  import opened PageState

  const POINTER_SIZE: nat := 4

  /** Subtraction on `unsigned long` (32 bits). */
  function Sub(a: int, b: int): (r: nat)
    ensures r < WORD
    ensures 0 <= a - b < WORD ==> r == a - b
  {
    (a - b) % WORD
  }

  /** The code's estimate of the pages an array of `n` page pointers needs. */
  function PageStructure(n: nat): nat {
    ((n * POINTER_SIZE) % WORD) / PAGE_SIZE + 1
  }

  /** The pages that `vmalloc` takes for the array actually requested, of `n + 1` pointers. */
  function ArrayPages(n: nat): nat {
    ((n + 1) * POINTER_SIZE + PAGE_SIZE - 1) / PAGE_SIZE
  }

  /** How many pages a request is cut down to, or nothing when it is turned away. */
  function Clamp(request: nat, free: nat, min: nat): Option<nat> {
    if request == 0 then None
    else
      var tooMany := request > Sub(free, min);
      if tooMany && Sub(free, min + 1) == 0 then None
      else
        var n := if tooMany then Sub(free, min + 1) else request;
        var structure := PageStructure(n);
        if n >= Sub(Sub(free, min + 1), structure) then
          if structure >= n then None else Some(n - structure)
        else Some(n)
  }

  /** The estimate is exact: it covers the array of `n + 1` pointers with nothing to spare. */
  lemma StructureIsExact(n: nat)
    requires n < WORD / POINTER_SIZE
    ensures PageStructure(n) == ArrayPages(n) == n / 1024 + 1
  {
  }

  /** A request is served at its own size exactly when it, its array and one page more lie strictly
      within the pages above the reserve, or when there is a single page and it is asked for. */
  lemma WhenARequestIsServedWhole(request: nat, free: nat, min: nat)
    requires min < free < 0x4000_0000
    ensures var d := free - min;
      Clamp(request, free, min) == Some(request) <==>
      request >= 1 && (request + (request / 1024 + 1) + 1 < d || d == request == 1)
  {
    ClampSteps(request, free, min);
  }

  /** Every other request is turned away or cut: one within the pages above the reserve by its own
      array, one beyond them to a number that does not depend on it. `n + n / 1024 + 1` pages hold
      that and its array; the rest stay unused, one or more. */
  lemma WhatOtherRequestsGet(request: nat, free: nat, min: nat)
    requires min < free < 0x4000_0000 && Clamp(request, free, min) != Some(request)
    ensures var d := free - min;
      && (Clamp(request, free, min) == None <==> request == 0 || (request == 1 && d >= 2) || (request > d && d <= 2))
      && (2 <= request <= d ==> Clamp(request, free, min) == Some(request - (request / 1024 + 1)))
      && (request > d >= 3 ==>
            var n := d - 1 - ((d - 1) / 1024 + 1);
            && Clamp(request, free, min) == Some(n) && 1 <= n
            && d - (n + n / 1024 + 1) == 1 + (d - 1) / 1024 - n / 1024 >= 1)
  {
    ClampSteps(request, free, min);
  }

  lemma ClampSteps(request: nat, free: nat, min: nat)
    requires min < free < 0x4000_0000
    ensures var d := free - min;
      var n := if request > d then d - 1 else request;
      var structure := n / 1024 + 1;
      Clamp(request, free, min) ==
        if n == 0 then None
        else if d - 1 < structure || n < d - 1 - structure then Some(n)
        else if structure >= n then None
        else Some(n - structure)
  {
    var d := free - min;
    var n := if request > d then d - 1 else request;
    assert Sub(free, min) == d && Sub(free, min + 1) == d - 1;
    StructureIsExact(n);
    assert d - 1 < n / 1024 + 1 ==> d == 1;
  }

  lemma ClampValue(request: nat, free: nat, min: nat)
    requires min < free < WORD / POINTER_SIZE
    requires Clamp(request, free, min).Some?
    ensures var n := Clamp(request, free, min).value;
      var d := free - min;
      && 1 <= n <= d
      && ArrayPages(n) <= d
      && (n + ArrayPages(n) + 1 <= d <==> !(request == d && (d - (d / 1024 + 1)) / 1024 == d / 1024))
  {
    var d := free - min;
    var n1 := if request > d then d - 1 else request;
    assert Sub(free, min) == d && Sub(free, min + 1) == d - 1;
    StructureIsExact(n1);
    StructureIsExact(Clamp(request, free, min).value);
    var structure := n1 / 1024 + 1;
    if d - 1 < structure {
      assert d == 1;
    } else {
      assert Sub(d - 1, structure) == d - 1 - structure;
    }
  }

  /** How many pages the fill loop takes from a quiet zone before its watermark stops it. */
  function Takes(n: nat, freePages: nat, min: nat): nat {
    var above := freePages - (min + 1);
    if above < 0 then 0 else if n <= above then n else above
  }

  /** What the block table keeps of them. */
  function Records(n: nat, taken: nat): nat {
    if taken == n then n else if taken >= 1 then taken - 1 else 0
  }

  /** A quiet request of whose page array `a` pages come out of the zone takes more than it
      records in one case alone: it asks for all that lies above the reserve, three pages or more,
      and the zone gives as many pages for the array as the second clamp set aside. Then exactly
      one page is lost. */
  lemma WhenAPageIsLost(request: nat, free: nat, min: nat, a: nat)
    requires min < free < WORD / POINTER_SIZE
    requires Clamp(request, free, min).Some? && a <= ArrayPages(Clamp(request, free, min).value)
    ensures var n, d := Clamp(request, free, min).value, free - min;
      var taken := Takes(n, free - a, min);
      taken - Records(n, taken) == if request == d && d >= 3 && a == d / 1024 + 1 then 1 else 0
  {
    var n, d := Clamp(request, free, min).value, free - min;
    ClampValue(request, free, min);
    StructureIsExact(n);
    StructureIsExact(d);
    if request == d {
      BoundaryClamp(free, min);
    }
  }

  /** When the whole array comes out of the zone, that is when the clamp does not shrink it. */
  lemma WhenTheWholeArrayIsInTheZone(free: nat, min: nat)
    requires min < free < WORD / POINTER_SIZE && Clamp(free - min, free, min).Some?
    ensures var n, d := Clamp(free - min, free, min).value, free - min;
      d >= 2 ==> (ArrayPages(n) == d / 1024 + 1 <==> (d - (d / 1024 + 1)) / 1024 == d / 1024)
  {
    BoundaryClamp(free, min);
    StructureIsExact(Clamp(free - min, free, min).value);
  }

  lemma BoundaryClamp(free: nat, min: nat)
    requires min < free < WORD / POINTER_SIZE
    ensures var d := free - min;
      Clamp(d, free, min).Some? ==>
        Clamp(d, free, min).value == if d == 1 then 1 else d - (d / 1024 + 1)
  {
    StructureIsExact(free - min);
  }

  /** The fill loop in a quiet zone whose every allocation succeeds. `taken` pages leave the
      zone; `recorded` is what the block table keeps. */
  method FillLowZone(n: nat, freePages: nat, min: nat) returns (taken: nat, recorded: nat, left: nat)
    requires freePages >= min
    ensures left == freePages - taken >= min
    ensures taken == Takes(n, freePages, min) && recorded == Records(n, taken)
  {
    taken, left := 0, freePages;
    var i: int := 0;
    while i < n
      invariant 0 <= i <= n
      invariant taken == i && left == freePages - taken >= min
      invariant taken == 0 || left >= min + 1
    {
      if left <= min + 1 {
        i := i - 1;
        break;
      }
      left, taken := left - 1, taken + 1;
      i := i + 1;
    }
    recorded := if i <= 0 then 0 else i;
  }

  /** What a quiet request takes, in terms of the request alone. */
  lemma WhatARequestTakes(request: nat, free: nat, min: nat, a: nat)
    requires min < free < 0x4000_0000 && Clamp(request, free, min).Some?
    requires a <= ArrayPages(Clamp(request, free, min).value)
    ensures var d := free - min;
      Takes(Clamp(request, free, min).value, free - a, min) ==
        if request + (request / 1024 + 1) + 1 < d then request
        else if request < d then request - (request / 1024 + 1)
        else if request > d then d - 1 - ((d - 1) / 1024 + 1)
        else if d == 1 then 0
        else if a == d / 1024 + 1 then d - 1 - (d / 1024 + 1)
        else d - (d / 1024 + 1)
  {
    var d := free - min;
    ClampSteps(request, free, min);
    ClampValue(request, free, min);
    StructureIsExact(Clamp(request, free, min).value);
  }

  /** A low-zone request served while nothing else runs. `a` of the pages that `vmalloc` takes for
      the array are pages of the zone; the others are high memory. */
  method ServeLowZone(request: nat, free: nat, min: nat, a: nat) returns (taken: nat, recorded: nat, left: nat)
    requires min < free < WORD / POINTER_SIZE
    requires Clamp(request, free, min).Some? ==> a <= ArrayPages(Clamp(request, free, min).value)
    ensures Clamp(request, free, min).None? ==> taken == recorded == 0 && left == free
    ensures Clamp(request, free, min).Some? ==>
      left == free - a - taken && taken <= Clamp(request, free, min).value
    // the reserve is never touched
    ensures left >= min
    // one page is lost, at the boundary alone
    ensures var d := free - min;
      taken - recorded ==
        if Clamp(request, free, min).Some? && request == d && d >= 3 && a == d / 1024 + 1 then 1 else 0
    // a request that fits is served whole, a larger one as far as its array leaves room
    ensures var d := free - min;
      && (1 <= request && request + (request / 1024 + 1) + 1 < d ==> taken == recorded == request)
      && (2 <= request < d <= request + (request / 1024 + 1) + 1 ==>
            taken == recorded == request - (request / 1024 + 1))
      && (3 <= d < request ==> taken == recorded == d - 1 - ((d - 1) / 1024 + 1))
      && (2 <= d == request ==> taken == d - (d / 1024 + 1) - (if a == d / 1024 + 1 then 1 else 0))
      && (request == 0 || d <= 1 || (d == 2 && request != 2) || (request == 1 && d <= 3) ==> taken == recorded == 0)
  {
    var clamped := Clamp(request, free, min);
    ClampSteps(request, free, min);
    if clamped.None? {
      return 0, 0, free;
    }
    WhatARequestTakes(request, free, min, a);
    ClampValue(request, free, min);
    WhenAPageIsLost(request, free, min, a);
    taken, recorded, left := FillLowZone(clamped.value, free - a, min);
  }
}
