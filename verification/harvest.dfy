/**
 * The tile-harvest loop of `scrape_google_shopping`.
 *
 * The browser is replaced by two things: the tile markers, which only the
 * tile-advancement script changes, and `sidebar`, which says for every tile
 * what the extraction call returns once that tile has been clicked. The loop
 * runs at most `MaxCards` times; a `NO_CARD` answer ends it before any
 * extraction; a failed extraction or one without rows is skipped but uses up
 * its iteration; otherwise the first row becomes one product ranked after the
 * products already collected. A row that cannot be validated ends the run.
 */
module Harvest {
  import opened Wrappers
  import opened Tiles
  import opened Models

  /** The iteration bound of the loop. */
  const MaxCards: nat := 50

  const SearchUrlPrefix := "https://www.google.com/search?tbm=shop&q="

  /** What the extraction call returns after a click: a failure, or the extracted rows. */
  datatype Extraction = Failed | Extracted(rows: seq<Row>)

  /** Why the loop stopped: `NO_CARD` was answered, or the iteration bound was reached. */
  datatype Exit = Exhausted | BoundReached

  /**
   * A finished loop: the products, the tiles clicked (each click is followed
   * by one extraction), how many times the advancement script ran, and why
   * the loop stopped.
   */
  datatype Run = Run(products: seq<Product>, clicked: seq<nat>, advances: nat, exit: Exit)

  /** Ranks are 1, 2, ..., n in list order: no gap, no repeat. */
  predicate DenseRanks(products: seq<Product>)
  {
    forall k :: 0 <= k < |products| ==> products[k].rank == k + 1
  }

  /** True when an extraction yields a product row rather than being skipped. */
  predicate Usable(e: Extraction)
  {
    e.Extracted? && |e.rows| > 0
  }

  /**
   * The loop from the iteration numbered `|clicked|` on, with the markers and
   * the products collected so far.
   */
  function HarvestLoop(marks: Marks, sidebar: seq<Extraction>, products: seq<Product>, clicked: seq<nat>)
    : (r: Result<Run, ValidationError>)
    requires |sidebar| == |marks|
    requires |clicked| <= MaxCards
    ensures r.Success? ==> |clicked| <= |r.value.clicked| <= r.value.advances <= MaxCards
    ensures r.Success? && DenseRanks(products) ==> DenseRanks(r.value.products)
    ensures r.Failure? ==> r.error == LinkUrlMissing || r.error == ProductNameMissing
    decreases MaxCards - |clicked|
  {
    if |clicked| == MaxCards then Success(Run(products, clicked, MaxCards, BoundReached))
    else
      var (reply, after) := NextTile(marks);
      match reply
      case NoCard => Success(Run(products, clicked, |clicked| + 1, Exhausted))
      case Ok(t) =>
        var e := sidebar[t];
        if !Usable(e) then HarvestLoop(after, sidebar, products, clicked + [t])
        else
          match ToProduct(e.rows[0], |products| + 1)
          case Failure(err) => Failure(err)
          case Success(p) => HarvestLoop(after, sidebar, products + [p], clicked + [t])
  }

  /**
   * The loop on a freshly opened page with one tile per `sidebar` entry: ranks
   * are dense, the bound holds, and a run only aborts on a validation error.
   */
  function Harvest(sidebar: seq<Extraction>): (r: Result<Run, ValidationError>)
    ensures r.Success? ==> DenseRanks(r.value.products) && |r.value.clicked| <= r.value.advances <= MaxCards
    ensures r.Failure? ==> r.error == LinkUrlMissing || r.error == ProductNameMissing
  {
    HarvestLoop(Fresh(|sidebar|), sidebar, [], [])
  }

  // ---------------------------------------------------------------------------
  // The reference description of a run

  /** The first rows of the usable extractions among `es`, in order. */
  function Heads(es: seq<Extraction>): (rows: seq<Row>)
    ensures |rows| <= |es|
  {
    if |es| == 0 then []
    else (if Usable(es[0]) then [es[0].rows[0]] else []) + Heads(es[1..])
  }

  function Take<T>(xs: seq<T>, n: nat): seq<T>
  {
    if n <= |xs| then xs[..n] else xs
  }

  function Min(a: nat, b: nat): nat
  {
    if a <= b then a else b
  }

  /** The tiles the next `budget` iterations click: the next unvisited ones, in document order. */
  function Window(marks: Marks, budget: nat): (w: seq<nat>)
    ensures forall k :: 0 <= k < |w| ==> w[k] < |marks|
  {
    Take(Unvisited(marks), budget)
  }

  /** The first rows of the usable extractions among the tiles the next `budget` iterations click. */
  function WindowHeads(marks: Marks, sidebar: seq<Extraction>, budget: nat): seq<Row>
    requires |sidebar| == |marks|
  {
    var w := Window(marks, budget);
    Heads(seq(|w|, k requires 0 <= k < |w| => sidebar[w[k]]))
  }

  predicate AllBuildable(rows: seq<Row>)
  {
    forall k :: 0 <= k < |rows| ==> Buildable(rows[k])
  }

  /** The products `rows` become when ranked from `first` on. */
  function Built(rows: seq<Row>, first: int): (ps: seq<Product>)
    requires AllBuildable(rows)
    ensures |ps| == |rows|
    ensures forall k :: 0 <= k < |rows| ==> ps[k] == ToProduct(rows[k], first + k).value
  {
    seq(|rows|, k requires 0 <= k < |rows| => ToProduct(rows[k], first + k).value)
  }

  lemma AppendAssoc<T>(a: seq<T>, b: seq<T>, c: seq<T>)
    ensures (a + b) + c == a + (b + c)
  {
  }

  lemma {:induction false} HeadsAppend(a: seq<Extraction>, b: seq<Extraction>)
    ensures Heads(a + b) == Heads(a) + Heads(b)
  {
    if |a| == 0 {
      assert a + b == b;
    } else {
      var first := if Usable(a[0]) then [a[0].rows[0]] else [];
      assert (a + b)[0] == a[0];
      assert (a + b)[1..] == a[1..] + b;
      HeadsAppend(a[1..], b);
      assert Heads(a + b) == first + (Heads(a[1..]) + Heads(b));
      AppendAssoc(first, Heads(a[1..]), Heads(b));
    }
  }

  lemma BuiltCons(row: Row, rows: seq<Row>, first: int)
    requires AllBuildable([row] + rows)
    ensures Buildable(row) && AllBuildable(rows)
    ensures Built([row] + rows, first) == [ToProduct(row, first).value] + Built(rows, first + 1)
  {
    var all := [row] + rows;
    assert all[0] == row;
    forall k | 0 <= k < |rows|
      ensures Buildable(rows[k])
    {
      assert rows[k] == all[k + 1];
    }
    var a := Built(all, first);
    var tail := Built(rows, first + 1);
    var b := [ToProduct(row, first).value] + tail;
    forall k | 0 <= k < |a|
      ensures a[k] == b[k]
    {
      if k > 0 {
        assert all[k] == rows[k - 1];
        assert b[k] == tail[k - 1];
      }
    }
  }

  /** One click moves the window by one tile. */
  lemma WindowStep(marks: Marks, budget: nat)
    requires budget > 0
    requires NextTile(marks).0.Ok?
    ensures Window(marks, budget) == [NextTile(marks).0.tile] + Window(NextTile(marks).1, budget - 1)
  {
    AdvancePopsFirst(marks);
  }

  /** One step of the loop in terms of the window heads. */
  lemma HeadsStep(marks: Marks, sidebar: seq<Extraction>, budget: nat)
    requires |sidebar| == |marks|
    requires budget > 0
    requires NextTile(marks).0.Ok?
    ensures var t := NextTile(marks).0.tile;
      var rest := WindowHeads(NextTile(marks).1, sidebar, budget - 1);
      WindowHeads(marks, sidebar, budget) == (if Usable(sidebar[t]) then [sidebar[t].rows[0]] else []) + rest
  {
    var (reply, after) := NextTile(marks);
    var t := reply.tile;
    WindowStep(marks, budget);
    var w := Window(marks, budget);
    var w' := Window(after, budget - 1);
    var es := seq(|w|, k requires 0 <= k < |w| => sidebar[w[k]]);
    var es' := seq(|w'|, k requires 0 <= k < |w'| => sidebar[w'[k]]);
    assert es == [sidebar[t]] + es';
    HeadsAppend([sidebar[t]], es');
  }

  /**
   * What a run started from `marks` after the iterations `clicked` reports about
   * its clicks: the next unvisited tiles in document order, as many as the
   * remaining bound allows; a stop on `NO_CARD` when fewer tiles are left than
   * iterations, and on the bound otherwise.
   */
  predicate ClicksAsExpected(marks: Marks, sidebar: seq<Extraction>, products: seq<Product>, clicked: seq<nat>)
    requires |sidebar| == |marks|
    requires |clicked| <= MaxCards
  {
    var budget := MaxCards - |clicked|;
    var left := |Unvisited(marks)|;
    var r := HarvestLoop(marks, sidebar, products, clicked);
    r.Success? ==>
      && r.value.clicked == clicked + Window(marks, budget)
      && r.value.exit == (if left < budget then Exhausted else BoundReached)
      && r.value.advances == (if left < budget then |clicked| + left + 1 else MaxCards)
  }

  lemma {:induction false} ClicksOnNoCard(marks: Marks, sidebar: seq<Extraction>, products: seq<Product>, clicked: seq<nat>)
    requires |sidebar| == |marks|
    requires |clicked| < MaxCards
    requires NextTile(marks).0.NoCard?
    ensures ClicksAsExpected(marks, sidebar, products, clicked)
  {
    NoCardIffNoneLeft(marks);
  }

  lemma {:induction false} ClicksOnOk(marks: Marks, sidebar: seq<Extraction>, products: seq<Product>, clicked: seq<nat>, next: seq<Product>)
    requires |sidebar| == |marks|
    requires |clicked| < MaxCards
    requires NextTile(marks).0.Ok?
    requires var r := HarvestLoop(marks, sidebar, products, clicked);
      r.Success? ==> r == HarvestLoop(NextTile(marks).1, sidebar, next, clicked + [NextTile(marks).0.tile])
    requires ClicksAsExpected(NextTile(marks).1, sidebar, next, clicked + [NextTile(marks).0.tile])
    ensures ClicksAsExpected(marks, sidebar, products, clicked)
  {
    var budget := MaxCards - |clicked|;
    var (reply, after) := NextTile(marks);
    var t := reply.tile;
    var r := HarvestLoop(marks, sidebar, products, clicked);
    if r.Success? {
      WindowStep(marks, budget);
      AdvancePopsFirst(marks);
      var left := |Unvisited(marks)|;
      var left' := |Unvisited(after)|;
      assert left == left' + 1;
      var w' := Window(after, budget - 1);
      assert Window(marks, budget) == [t] + w';
      var r' := HarvestLoop(after, sidebar, next, clicked + [t]);
      assert r == r';
      var rv := r'.value;
      assert rv.clicked == (clicked + [t]) + w';
      AppendAssoc(clicked, [t], w');
    }
  }

  /** The loop's clicks, exit and advancement count, wherever it starts. */
  lemma {:induction false} LoopClicks(marks: Marks, sidebar: seq<Extraction>, products: seq<Product>, clicked: seq<nat>)
    requires |sidebar| == |marks|
    requires |clicked| <= MaxCards
    ensures ClicksAsExpected(marks, sidebar, products, clicked)
    decreases MaxCards - |clicked|
  {
    if |clicked| < MaxCards {
      var (reply, after) := NextTile(marks);
      if reply.NoCard? {
        ClicksOnNoCard(marks, sidebar, products, clicked);
      } else {
        var t := reply.tile;
        var e := sidebar[t];
        var next := if Usable(e) && ToProduct(e.rows[0], |products| + 1).Success?
          then products + [ToProduct(e.rows[0], |products| + 1).value] else products;
        LoopClicks(after, sidebar, next, clicked + [t]);
        ClicksOnOk(marks, sidebar, products, clicked, next);
      }
    }
  }

  /**
   * What a run started from `marks` after the iterations `clicked`, with
   * `products` collected, reports about its products: the first row of every
   * usable extraction among the tiles it clicks becomes one product, ranked
   * after those already collected; the run aborts with the error of the first
   * such row that cannot be built.
   */
  predicate ProductsAsExpected(marks: Marks, sidebar: seq<Extraction>, products: seq<Product>, clicked: seq<nat>)
    requires |sidebar| == |marks|
    requires |clicked| <= MaxCards
  {
    var heads := WindowHeads(marks, sidebar, MaxCards - |clicked|);
    var r := HarvestLoop(marks, sidebar, products, clicked);
    && (r.Success? <==> AllBuildable(heads))
    && (r.Success? ==> AllBuildable(heads) && r.value.products == products + Built(heads, |products| + 1))
    && (r.Failure? ==> FirstFailure(heads, r.error))
  }

  /** `err` is the error of the first row among `rows` that cannot be built. */
  predicate FirstFailure(rows: seq<Row>, err: ValidationError)
  {
    exists k :: 0 <= k < |rows| && AllBuildable(rows[..k]) && !Buildable(rows[k]) && err == ToProduct(rows[k], 0).error
  }

  lemma ConsBuildable(row: Row, rows: seq<Row>)
    requires Buildable(row)
    ensures AllBuildable([row] + rows) <==> AllBuildable(rows)
  {
    assert forall k :: 0 <= k < |rows| ==> ([row] + rows)[k + 1] == rows[k];
    assert ([row] + rows)[0] == row;
  }

  lemma FirstFailureCons(row: Row, rows: seq<Row>, err: ValidationError)
    requires Buildable(row)
    requires FirstFailure(rows, err)
    ensures FirstFailure([row] + rows, err)
  {
    var k :| 0 <= k < |rows| && AllBuildable(rows[..k]) && !Buildable(rows[k]) && err == ToProduct(rows[k], 0).error;
    assert ([row] + rows)[k + 1] == rows[k];
    assert ([row] + rows)[..k + 1] == [row] + rows[..k];
    ConsBuildable(row, rows[..k]);
  }

  lemma {:induction false} ProductsOnSkip(marks: Marks, sidebar: seq<Extraction>, products: seq<Product>, clicked: seq<nat>)
    requires |sidebar| == |marks|
    requires |clicked| < MaxCards
    requires NextTile(marks).0.Ok? && !Usable(sidebar[NextTile(marks).0.tile])
    requires ProductsAsExpected(NextTile(marks).1, sidebar, products, clicked + [NextTile(marks).0.tile])
    ensures ProductsAsExpected(marks, sidebar, products, clicked)
  {
    var (reply, after) := NextTile(marks);
    var t := reply.tile;
    HeadsStep(marks, sidebar, MaxCards - |clicked|);
    assert WindowHeads(marks, sidebar, MaxCards - |clicked|) == WindowHeads(after, sidebar, MaxCards - |clicked + [t]|);
    assert HarvestLoop(marks, sidebar, products, clicked) == HarvestLoop(after, sidebar, products, clicked + [t]);
  }

  lemma {:induction false} ProductsOnAbort(marks: Marks, sidebar: seq<Extraction>, products: seq<Product>, clicked: seq<nat>)
    requires |sidebar| == |marks|
    requires |clicked| < MaxCards
    requires NextTile(marks).0.Ok? && Usable(sidebar[NextTile(marks).0.tile])
    requires ToProduct(sidebar[NextTile(marks).0.tile].rows[0], |products| + 1).Failure?
    ensures ProductsAsExpected(marks, sidebar, products, clicked)
  {
    var (reply, after) := NextTile(marks);
    var row := sidebar[reply.tile].rows[0];
    HeadsStep(marks, sidebar, MaxCards - |clicked|);
    var heads := WindowHeads(marks, sidebar, MaxCards - |clicked|);
    assert heads[0] == row;
    assert heads[..0] == [];
    BuildableIgnoresRank(row, |products| + 1, 0);
    assert FirstFailure(heads, ToProduct(row, |products| + 1).error);
  }

  lemma {:induction false} ProductsOnBuilt(marks: Marks, sidebar: seq<Extraction>, products: seq<Product>, clicked: seq<nat>)
    requires |sidebar| == |marks|
    requires |clicked| < MaxCards
    requires NextTile(marks).0.Ok? && Usable(sidebar[NextTile(marks).0.tile])
    requires ToProduct(sidebar[NextTile(marks).0.tile].rows[0], |products| + 1).Success?
    requires var p := ToProduct(sidebar[NextTile(marks).0.tile].rows[0], |products| + 1).value;
      ProductsAsExpected(NextTile(marks).1, sidebar, products + [p], clicked + [NextTile(marks).0.tile])
    ensures ProductsAsExpected(marks, sidebar, products, clicked)
  {
    var (reply, after) := NextTile(marks);
    var t := reply.tile;
    var row := sidebar[t].rows[0];
    var p := ToProduct(row, |products| + 1).value;
    HeadsStep(marks, sidebar, MaxCards - |clicked|);
    var heads := WindowHeads(marks, sidebar, MaxCards - |clicked|);
    var heads' := WindowHeads(after, sidebar, MaxCards - |clicked + [t]|);
    assert heads == [row] + heads';
    var r := HarvestLoop(after, sidebar, products + [p], clicked + [t]);
    assert HarvestLoop(marks, sidebar, products, clicked) == r;
    ConsBuildable(row, heads');
    if r.Success? {
      BuiltCons(row, heads', |products| + 1);
      AppendAssoc(products, [p], Built(heads', |products| + 2));
    } else {
      FirstFailureCons(row, heads', r.error);
    }
  }

  /** The loop's products, or the error it aborts with, wherever it starts. */
  lemma {:induction false} LoopProducts(marks: Marks, sidebar: seq<Extraction>, products: seq<Product>, clicked: seq<nat>)
    requires |sidebar| == |marks|
    requires |clicked| <= MaxCards
    ensures ProductsAsExpected(marks, sidebar, products, clicked)
    decreases MaxCards - |clicked|
  {
    var budget := MaxCards - |clicked|;
    if |clicked| == MaxCards {
      assert Window(marks, budget) == [];
    } else {
      var (reply, after) := NextTile(marks);
      if reply.NoCard? {
        NoCardIffNoneLeft(marks);
        assert Window(marks, budget) == [];
      } else {
        var t := reply.tile;
        var e := sidebar[t];
        if !Usable(e) {
          LoopProducts(after, sidebar, products, clicked + [t]);
          ProductsOnSkip(marks, sidebar, products, clicked);
        } else if ToProduct(e.rows[0], |products| + 1).Failure? {
          ProductsOnAbort(marks, sidebar, products, clicked);
        } else {
          LoopProducts(after, sidebar, products + [ToProduct(e.rows[0], |products| + 1).value], clicked + [t]);
          ProductsOnBuilt(marks, sidebar, products, clicked);
        }
      }
    }
  }

  /**
   * On a fresh page with `n` tiles the loop clicks tiles `0 .. min(n, MaxCards) - 1`
   * in order; it stops on `NO_CARD` after `n + 1` advancements when `n < MaxCards`
   * and on the bound after exactly `MaxCards` otherwise; product `k` is built
   * from the `k`-th usable extraction among the clicked tiles and has rank `k + 1`,
   * however many extractions were skipped.
   */
  lemma HarvestMatchesReference(sidebar: seq<Extraction>)
    ensures var window := Min(|sidebar|, MaxCards);
      var heads := Heads(sidebar[..window]);
      var r := Harvest(sidebar);
      && (r.Success? <==> AllBuildable(heads))
      && (r.Success? ==>
          && r.value.products == Built(heads, 1)
          && r.value.clicked == Range(window)
          && r.value.exit == (if |sidebar| < MaxCards then Exhausted else BoundReached)
          && r.value.advances == (if |sidebar| < MaxCards then |sidebar| + 1 else MaxCards))
  {
    var n := |sidebar|;
    var window := Min(n, MaxCards);
    FreshUnvisited(n);
    LoopClicks(Fresh(n), sidebar, [], []);
    LoopProducts(Fresh(n), sidebar, [], []);
    var w := Window(Fresh(n), MaxCards);
    assert w == Range(window);
    assert seq(|w|, k requires 0 <= k < |w| => sidebar[w[k]]) == sidebar[..window];
  }

  /** Every successful run has dense ranks and stays within the iteration bound. */
  lemma HarvestInvariants(sidebar: seq<Extraction>)
    ensures Harvest(sidebar).Success? ==> DenseRanks(Harvest(sidebar).value.products)
    ensures Harvest(sidebar).Success? ==> Harvest(sidebar).value.advances <= MaxCards
    ensures Harvest(sidebar).Success? ==> |Harvest(sidebar).value.clicked| <= Harvest(sidebar).value.advances
    ensures Harvest(sidebar).Success? && Harvest(sidebar).value.exit == BoundReached ==> |Harvest(sidebar).value.clicked| == MaxCards
  {
    HarvestMatchesReference(sidebar);
  }

  /**
   * A tile whose extraction fails or has no rows adds no product: with it the
   * run has the same outcome and the same products, and one click more.
   */
  lemma SkippedTileAddsNothing(before: seq<Extraction>, e: Extraction, after: seq<Extraction>)
    requires !Usable(e)
    requires |before| + 1 + |after| <= MaxCards
    ensures Harvest(before + [e] + after).Success? <==> Harvest(before + after).Success?
    ensures Harvest(before + [e] + after).Success? ==>
      && Harvest(before + [e] + after).value.products == Harvest(before + after).value.products
      && |Harvest(before + [e] + after).value.clicked| == |Harvest(before + after).value.clicked| + 1
  {
    var with := before + [e] + after;
    var without := before + after;
    assert Heads(with) == Heads(without) by {
      HeadsAppend(before + [e], after);
      HeadsAppend(before, [e]);
      assert Heads([e]) == [] by { assert [e][1..] == []; }
      assert Heads(before) + [] == Heads(before);
      HeadsAppend(before, after);
    }
    assert Min(|with|, MaxCards) == |with| && with[..|with|] == with;
    assert Min(|without|, MaxCards) == |without| && without[..|without|] == without;
    HarvestMatchesReference(with);
    HarvestMatchesReference(without);
  }

  /** A page with no tiles: one advancement answers `NO_CARD`, and nothing is harvested. */
  lemma EmptyPageHarvestsNothing()
    ensures Harvest([]) == Success(Run([], [], 1, Exhausted))
  {
  }

  /**
   * Three tiles whose extractions succeed, fail and succeed: two products,
   * ranked 1 and 2, built from the first and the third tile.
   */
  lemma SkipBetweenTwoProducts(a: Row, b: Row)
    requires Buildable(a) && Buildable(b)
    ensures Harvest([Extracted([a]), Failed, Extracted([b])])
      == Success(Run([ToProduct(a, 1).value, ToProduct(b, 2).value], [0, 1, 2], 4, Exhausted))
  {
    var sidebar := [Extracted([a]), Failed, Extracted([b])];
    assert Heads(sidebar) == [a, b] by {
      var last := [Extracted([b])];
      assert last[1..] == [];
      assert Heads(last) == [b] + Heads([]);
      assert sidebar[1..] == [Failed] + last && ([Failed] + last)[1..] == last;
      assert Heads(sidebar[1..]) == Heads(last);
      assert Heads(sidebar) == [a] + Heads(sidebar[1..]);
    }
    assert sidebar[..3] == sidebar;
    HarvestMatchesReference(sidebar);
    var built := Built([a, b], 1);
    assert built[0] == ToProduct(a, 1).value && built[1] == ToProduct(b, 2).value;
    assert built == [ToProduct(a, 1).value, ToProduct(b, 2).value];
    assert Range(3) == [0, 1, 2];
  }

  /** What one pass of the loop body leaves: the run's end, or the state for the next pass. */
  datatype Visit =
    | Stop(result: Result<Run, ValidationError>)
    | Go(marks: Marks, products: seq<Product>, clicked: seq<nat>)

  /**
   * One pass of the loop body: ask the page for the next tile, then stop on
   * `NO_CARD`, skip an unusable tile, abort on a row that does not map, or
   * append the row's product.
   */
  method VisitNext(marks: Marks, sidebar: seq<Extraction>, products: seq<Product>, clicked: seq<nat>)
    returns (v: Visit)
    requires |sidebar| == |marks| && |clicked| < MaxCards
    ensures v.Stop? ==> v.result == HarvestLoop(marks, sidebar, products, clicked)
    ensures v.Go? ==> |v.marks| == |marks| && |v.clicked| == |clicked| + 1
    ensures v.Go? ==> HarvestLoop(v.marks, sidebar, v.products, v.clicked) == HarvestLoop(marks, sidebar, products, clicked)
  {
    var (reply, after) := NextTile(marks);
    if reply.NoCard? {
      return Stop(Success(Run(products, clicked, |clicked| + 1, Exhausted)));
    }
    var t := reply.tile;
    var e := sidebar[t];
    if !Usable(e) {
      return Go(after, products, clicked + [t]);
    }
    var built := ToProduct(e.rows[0], |products| + 1);
    if built.Failure? {
      return Stop(Failure(built.error));
    }
    v := Go(after, products + [built.value], clicked + [t]);
  }

  /** The loop as written: at most `MaxCards` passes, ending early on `NO_CARD` or an abort. */
  method HarvestTiles(sidebar: seq<Extraction>) returns (r: Result<Run, ValidationError>)
    ensures r == Harvest(sidebar)
  {
    var marks := Fresh(|sidebar|);
    var products: seq<Product> := [];
    var clicked: seq<nat> := [];
    while |clicked| < MaxCards
      invariant |clicked| <= MaxCards
      invariant |marks| == |sidebar|
      invariant HarvestLoop(marks, sidebar, products, clicked) == Harvest(sidebar)
      decreases MaxCards - |clicked|
    {
      var v := VisitNext(marks, sidebar, products, clicked);
      if v.Stop? {
        return v.result;
      }
      marks, products, clicked := v.marks, v.products, v.clicked;
    }
    r := Success(Run(products, clicked, MaxCards, BoundReached));
  }

  /**
   * `scrape_google_shopping`: the harvest on a fresh page, wrapped into the
   * output record. `encodedQuery` stands for the URL-encoded query and
   * `scrapedAt` for the completion timestamp.
   */
  function ScrapeGoogleShopping(query: string, encodedQuery: string, sidebar: seq<Extraction>, scrapedAt: string)
    : (r: Result<ShoppingResults, ValidationError>)
    ensures r.Success? <==> Harvest(sidebar).Success?
    ensures r.Failure? ==> r.error == Harvest(sidebar).error
    ensures r.Success? ==>
      && r.value.totalProducts == |r.value.products|
      && r.value.products == Harvest(sidebar).value.products
      && DenseRanks(r.value.products)
      && r.value.query == query
      && r.value.scrapedAt == scrapedAt
      && r.value.searchUrl == SearchUrlPrefix + encodedQuery
  {
    HarvestInvariants(sidebar);
    match Harvest(sidebar)
    case Failure(e) => Failure(e)
    case Success(run) =>
      Success(ShoppingResults(
        query := query,
        totalProducts := |run.products|,
        products := run.products,
        scrapedAt := scrapedAt,
        searchUrl := SearchUrlPrefix + encodedQuery))
  }
}
