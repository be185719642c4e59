/** The session controller `Home` of pages/index.tsx: the map viewport and the URL hash,
    the selected grid cell, the current result page, the published search results and the
    saved scenes. The asynchronous search is modelled by its two halves: the search effect
    issues a request tagged with the current generation, and a later `Complete` event
    publishes the response only if no change of the selection or page has happened since
    (the `isLatest` flag that the effect's cleanup clears). */
module Home {
  import opened Wrappers
  import opened Catalog
  import opened HashCodec

  /** A grid cell picked on the map: its id and its footprint as WKT. */
  datatype Cell = Cell(id: string, llWkt: string)

  /** The selection: none, or some pick; a pick that hit nothing is `Some(None)`, since the
      click handler wraps whatever object the map reports. */
  type Selection = Option<Option<Cell>>

  /** A search request: the generation that issued it, the cell whose footprint is the
      query geometry, and the page. */
  datatype Request = Request(token: nat, cell: Cell, page: nat)

  /** A search response: the scenes of the page and the `context` counts. */
  datatype SearchResponse = SearchResponse(features: seq<Item>, matched: nat, limit: nat)

  /** The cell `c` is the one selected, compared by id only. */
  predicate IsSelected(selection: Selection, c: Cell) {
    selection.Some? && selection.value.Some? && selection.value.value.id == c.id
  }

  /** The selection after `onClickGrid` with the picked object `clicked`. */
  function PickNext(selection: Selection, clicked: Option<Cell>): (r: Selection)
    ensures r == None <==> clicked.Some? && IsSelected(selection, clicked.value)
    ensures r != None ==> r == Some(clicked)
  {
    if clicked.Some? && IsSelected(selection, clicked.value) then None else Some(clicked)
  }

  /** Clicking the selected cell again deselects it. */
  lemma PickSameCellTwice(selection: Selection, a: Cell, b: Cell)
    requires !IsSelected(selection, a) && a.id == b.id
    ensures PickNext(selection, Some(a)) == Some(Some(a))
    ensures PickNext(PickNext(selection, Some(a)), Some(b)) == None
  {
  }

  /** Clicking another cell replaces the selection; the geometry plays no part. */
  lemma PickOtherCell(a: Cell, b: Cell)
    requires a.id != b.id
    ensures PickNext(Some(Some(a)), Some(b)) == Some(Some(b))
  {
  }

  /** The request the search effect issues for a selection and page: one exactly when a
      cell is selected. */
  function RequestFor(selection: Selection, page: Option<nat>, token: nat): (r: Option<Request>)
    ensures r.Some? <==> selection.Some? && selection.value.Some? && page.Some?
    ensures r.Some? ==> r.value.token == token && selection == Some(Some(r.value.cell)) && page == Some(r.value.page)
  {
    if selection.Some? && selection.value.Some? && page.Some?
    then Some(Request(token, selection.value.value, page.value))
    else None
  }

  /** `Math.ceil(matched / limit)`, the number of pages; there is none when the limit is 0
      (the division gives Infinity or NaN). */
  function PageCount(matched: nat, limit: nat): (r: Option<nat>)
    ensures r.Some? <==> limit > 0
    ensures r.Some? ==> r.value * limit >= matched
    ensures r.Some? && r.value > 0 ==> (r.value - 1) * limit < matched
  {
    if limit == 0 then None
    else
      var q := (matched + limit - 1) / limit;
      assert q * limit + (matched + limit - 1) % limit == matched + limit - 1;
      Some(q)
  }

  lemma PageCountExample()
    ensures PageCount(101, 50) == Some(3)
    ensures PageCount(100, 50) == Some(2)
    ensures PageCount(0, 50) == Some(0)
  {
  }

  predicate HasId(saved: seq<Item>, id: string) {
    exists i :: 0 <= i < |saved| && saved[i].id == id
  }

  predicate UniqueIds(saved: seq<Item>) {
    forall i, j :: 0 <= i < j < |saved| ==> saved[i].id != saved[j].id
  }

  /** `savedResults.filter((sr) => sr.id !== id)` */
  function WithoutId(saved: seq<Item>, id: string): (r: seq<Item>)
    ensures forall x :: x in r <==> x in saved && x.id != id
    ensures |r| <= |saved|
    decreases |saved|
  {
    if saved == [] then []
    else (if saved[0].id == id then [] else [saved[0]]) + WithoutId(saved[1..], id)
  }

  /** `onClickToggleSave`: removes every saved scene with the item's id when there is one,
      appends the item otherwise. */
  function ToggleSaved(saved: seq<Item>, item: Item): (r: seq<Item>)
    ensures HasId(saved, item.id) ==> r == WithoutId(saved, item.id)
    ensures HasId(saved, item.id) ==> !HasId(r, item.id) && |r| < |saved|
    ensures !HasId(saved, item.id) ==> r == saved + [item]
  {
    if HasId(saved, item.id) then
      var i :| 0 <= i < |saved| && saved[i].id == item.id;
      WithoutIdShorter(saved, item.id, i);
      WithoutId(saved, item.id)
    else saved + [item]
  }

  lemma {:induction false} WithoutIdShorter(saved: seq<Item>, id: string, i: nat)
    requires i < |saved| && saved[i].id == id
    ensures |WithoutId(saved, id)| < |saved|
    ensures !HasId(WithoutId(saved, id), id)
    decreases |saved|
  {
    var r := WithoutId(saved, id);
    assert forall k :: 0 <= k < |r| ==> r[k] in r;
    if i > 0 {
      WithoutIdShorter(saved[1..], id, i - 1);
    }
  }

  /** Removal keeps the other scenes in their order: it distributes over concatenation. */
  lemma {:induction false} WithoutIdAppend(a: seq<Item>, b: seq<Item>, id: string)
    ensures WithoutId(a + b, id) == WithoutId(a, id) + WithoutId(b, id)
    decreases |a|
  {
    if a != [] {
      assert (a + b)[1..] == a[1..] + b;
      WithoutIdAppend(a[1..], b, id);
    } else {
      assert a + b == b;
    }
  }

  /** Removing an id that is absent changes nothing. */
  lemma {:induction false} WithoutAbsentId(saved: seq<Item>, id: string)
    requires !HasId(saved, id)
    ensures WithoutId(saved, id) == saved
    decreases |saved|
  {
    if saved != [] {
      assert saved[0].id != id;
      assert !HasId(saved[1..], id) by {
        forall i | 0 <= i < |saved[1..]| ensures saved[1..][i].id != id {
          assert saved[1..][i] == saved[i + 1];
        }
      }
      WithoutAbsentId(saved[1..], id);
      assert [saved[0]] + saved[1..] == saved;
    }
  }

  /** Toggling an unsaved scene twice restores the list. */
  lemma ToggleTwiceRestores(saved: seq<Item>, item: Item)
    requires !HasId(saved, item.id)
    ensures ToggleSaved(ToggleSaved(saved, item), item) == saved
  {
    var once := saved + [item];
    assert once[|saved|].id == item.id;
    WithoutIdAppend(saved, [item], item.id);
    WithoutAbsentId(saved, item.id);
    assert WithoutId([item], item.id) == [] + WithoutId([], item.id);
  }

  lemma {:induction false} WithoutIdKeepsUnique(saved: seq<Item>, id: string)
    requires UniqueIds(saved)
    ensures UniqueIds(WithoutId(saved, id))
    decreases |saved|
  {
    if saved != [] {
      var tail := saved[1..];
      assert UniqueIds(tail) by {
        forall i, j | 0 <= i < j < |tail| ensures tail[i].id != tail[j].id {
          assert tail[i] == saved[i + 1] && tail[j] == saved[j + 1];
        }
      }
      WithoutIdKeepsUnique(tail, id);
      var rest := WithoutId(tail, id);
      if saved[0].id != id {
        var r := [saved[0]] + rest;
        forall i, j | 0 <= i < j < |r| ensures r[i].id != r[j].id {
          if i == 0 {
            assert r[j] in rest;
            assert r[j] in tail;
            var k :| 0 <= k < |tail| && tail[k] == r[j];
            assert saved[k + 1] == r[j];
          } else {
            assert r[i] == rest[i - 1] && r[j] == rest[j - 1];
          }
        }
      }
    }
  }

  /** A saved list without duplicate ids keeps that property under toggling. */
  lemma ToggleKeepsUnique(saved: seq<Item>, item: Item)
    requires UniqueIds(saved)
    ensures UniqueIds(ToggleSaved(saved, item))
  {
    if HasId(saved, item.id) {
      WithoutIdKeepsUnique(saved, item.id);
    } else {
      var r := saved + [item];
      forall i, j | 0 <= i < j < |r| ensures r[i].id != r[j].id {
        if j == |saved| {
          assert r[i] == saved[i];
        }
      }
    }
  }

  class Session {
    /** The URL fragment as `useHash` reads it (with its "#"). */
    var hash: string
    var viewport: Option<Viewport>
    var selection: Selection
    /** Undefined until the first grid click. */
    var page: Option<nat>
    var results: Option<SearchResponse>
    var saved: seq<Item>
    /** How many times the search effect has run; the latest run's requests are the only
        ones still allowed to publish. */
    var generation: nat
    /** Every request issued, by the generation that issued it. */
    var issued: map<nat, Request>

    /** A selection implies a page; every issued request belongs to a past or the current
        generation; the current generation has a request exactly when a cell is selected,
        and that request is for the current cell and page; published results come from it. */
    ghost predicate Valid()
      reads this
    {
      && (selection.Some? ==> page.Some?)
      && (forall t :: t in issued ==> t <= generation && issued[t].token == t)
      && (generation in issued <==> selection.Some? && selection.value.Some?)
      && (generation in issued ==> RequestFor(selection, page, generation) == Some(issued[generation]))
      && (results.Some? ==> generation in issued)
    }

    /** The session as first rendered: nothing selected, no viewport yet, the hash as the
        browser has it. */
    constructor (initialHash: string)
      ensures Valid()
      ensures hash == initialHash && viewport == None && selection == None && page == None
      ensures results == None && saved == [] && generation == 0 && issued == map[]
    {
      hash := initialHash;
      viewport := None;
      selection := None;
      page := None;
      results := None;
      saved := [];
      generation := 0;
      issued := map[];
    }

    /** The start-up effect: while there is no viewport, a hash seeds it through
        `mergeHash` over the default viewport; without a hash the default viewport's hash
        is written (the browser adds the "#") and the viewport stays unset. */
    method InitEffect()
      requires Valid()
      modifies this
      ensures Valid()
      ensures old(viewport).None? && old(hash) != "" ==> viewport == Some(MergeHash(hash, DefaultViewport)) && hash == old(hash)
      ensures old(viewport).None? && old(hash) == "" ==> viewport == None && hash == "#" + ExtractHash(DefaultViewport)
      ensures old(viewport).Some? ==> viewport == old(viewport) && hash == old(hash)
      ensures selection == old(selection) && page == old(page) && results == old(results) && saved == old(saved)
      ensures generation == old(generation) && issued == old(issued)
    {
      if viewport.None? {
        if hash != "" {
          viewport := Some(MergeHash(hash, DefaultViewport));
        } else {
          hash := "#" + ExtractHash(DefaultViewport);
        }
      }
    }

    /** `onViewStateChange`: the viewport follows the map and the hash follows the
        viewport, so reading the hash back gives the viewport. */
    method ChangeViewState(v: Viewport)
      requires Valid()
      modifies this
      ensures Valid()
      ensures viewport == Some(v) && hash == "#" + ExtractHash(v)
      ensures MergeHash(hash, v) == v
      ensures selection == old(selection) && page == old(page) && results == old(results) && saved == old(saved)
      ensures generation == old(generation) && issued == old(issued)
    {
      viewport := Some(v);
      hash := "#" + ExtractHash(v);
      ViewportSurvivesHash(v);
    }

    /** The search effect, run after every change of the selection or the page: earlier
        requests lose the right to publish, the results are cleared, and a request is
        issued when a cell is selected. */
    method SearchEffect() returns (request: Option<Request>)
      requires selection.Some? ==> page.Some?
      requires forall t :: t in issued ==> t <= generation && issued[t].token == t
      modifies this`generation, this`results, this`issued
      ensures Valid()
      ensures generation == old(generation) + 1 && results == None
      ensures request == RequestFor(selection, page, generation)
      ensures issued == if request.Some? then old(issued)[generation := request.value] else old(issued)
    {
      generation := generation + 1;
      results := None;
      request := RequestFor(selection, page, generation);
      if request.Some? {
        issued := issued[generation := request.value];
      }
    }

    /** `onClickGrid`: the page becomes 1, the selection toggles off when the clicked cell
        has the selected id and becomes the click otherwise. The selection always changes
        (a new `some` or a `none` replacing a `some`), so the search effect runs. */
    method Pick(clicked: Option<Cell>) returns (request: Option<Request>)
      requires Valid()
      modifies this
      ensures Valid()
      ensures page == Some(1) && selection == PickNext(old(selection), clicked)
      ensures generation == old(generation) + 1 && results == None
      ensures request == RequestFor(selection, page, generation)
      ensures issued == if request.Some? then old(issued)[generation := request.value] else old(issued)
      ensures hash == old(hash) && viewport == old(viewport) && saved == old(saved)
    {
      page := Some(1);
      selection := PickNext(selection, clicked);
      request := SearchEffect();
    }

    /** `onClickClearSelection`: the selection becomes none and the page is kept. Only a
        change from some to none reruns the search effect. */
    method ClearSelection()
      requires Valid()
      modifies this
      ensures Valid()
      ensures selection == None && page == old(page)
      ensures old(selection).Some? ==> generation == old(generation) + 1 && results == None
      ensures old(selection).None? ==> generation == old(generation) && results == old(results)
      ensures issued == old(issued)
      ensures hash == old(hash) && viewport == old(viewport) && saved == old(saved)
    {
      if selection.Some? {
        selection := None;
        var request := SearchEffect();
      }
    }

    /** The pagination's `onChange`: a different page reruns the search effect. */
    method SetPage(next: nat) returns (request: Option<Request>)
      requires Valid()
      modifies this
      ensures Valid()
      ensures page == Some(next) && selection == old(selection)
      ensures old(page) == Some(next) ==> generation == old(generation) && results == old(results) && request == None && issued == old(issued)
      ensures old(page) != Some(next) ==> generation == old(generation) + 1 && results == None
      ensures old(page) != Some(next) ==> request == RequestFor(selection, page, generation)
      ensures old(page) != Some(next) ==> issued == if request.Some? then old(issued)[generation := request.value] else old(issued)
      ensures hash == old(hash) && viewport == old(viewport) && saved == old(saved)
    {
      request := None;
      if page != Some(next) {
        page := Some(next);
        request := SearchEffect();
      }
    }

    /** A request's response arrives: it is published only when its generation is the
        latest; otherwise it is dropped. */
    method Complete(token: nat, data: SearchResponse)
      requires Valid()
      requires token in issued
      modifies this`results
      ensures Valid()
      ensures token == generation ==> results == Some(data)
      ensures token != generation ==> results == old(results)
    {
      if token == generation {
        results := Some(data);
      }
    }

    /** `onClickToggleSave` */
    method ToggleSave(item: Item)
      requires Valid()
      modifies this`saved
      ensures Valid()
      ensures saved == ToggleSaved(old(saved), item)
    {
      saved := ToggleSaved(saved, item);
    }
  }

  /** Without a hash, start-up writes "#2/0/0"; the effect then runs again for the new hash
      and the viewport becomes the default viewport. */
  method StartWithoutHash(s: Session)
    requires s.Valid() && s.viewport == None && s.hash == ""
    modifies s
    ensures s.Valid()
    ensures s.hash == "#2/0/0" && s.viewport == Some(DefaultViewport)
  {
    s.InitEffect();
    DefaultHash();
    s.InitEffect();
    ViewportSurvivesHash(DefaultViewport);
  }

  /** Two overlapping searches for cells x then y: whichever order the responses arrive
      in, only y's response is published. */
  method LatestRequestWins(s: Session, x: Cell, y: Cell, dx: SearchResponse, dy: SearchResponse, xFirst: bool)
    requires s.Valid() && !IsSelected(s.selection, x) && x.id != y.id
    modifies s
    ensures s.Valid()
    ensures s.selection == Some(Some(y)) && s.results == Some(dy)
  {
    var rx := s.Pick(Some(x));
    var ry := s.Pick(Some(y));
    if xFirst {
      s.Complete(rx.value.token, dx);
      assert s.results == None;
      s.Complete(ry.value.token, dy);
    } else {
      s.Complete(ry.value.token, dy);
      s.Complete(rx.value.token, dx);
    }
  }

  /** Clearing the selection while a search is in flight: its response is never
      published. */
  method ClearWhileInFlight(s: Session, x: Cell, dx: SearchResponse)
    requires s.Valid() && !IsSelected(s.selection, x)
    modifies s
    ensures s.Valid()
    ensures s.selection == None && s.results == None
  {
    var rx := s.Pick(Some(x));
    s.ClearSelection();
    s.Complete(rx.value.token, dx);
  }
}
