/**
 * The search session store: the restaurants found so far, the total the
 * search service reported, the loading flag, the page counter and the id of
 * the current search, with the two operations that start a search and load
 * more of it.
 *
 * Every awaited gateway call (anonymous login, search token, search request)
 * is replaced by an outcome value that says how far the calls got, so each
 * operation runs as one atomic step. The restaurant record is the type
 * parameter `R`: the store never looks inside it.
 */
module RestaurantStore {

  /** What the visitor searches for: party size, date and time. */
  datatype SearchCriteria = SearchCriteria(size: string, date: string, time: string)

  /** How the calls of `initializeSearch` end: login fails, the search token request fails,
    * the search request for the new id fails, or the search returns posts and a total. */
  datatype InitOutcome<R> =
    | LoginFailed
    | TokenFailed
    | SearchFailed(searchId: string)
    | Found(searchId: string, posts: seq<R>, total: int)

  /** How the calls of `loadMore` end: the repeated login fails, the search request fails,
    * or the search returns posts (its total is not used). */
  datatype LoadOutcome<R> =
    | ReloginFailed
    | LoadFailed
    | Loaded(posts: seq<R>, total: int)

  /** The five fields of the store, as one value. */
  datatype StoreState<R> = StoreState(restaurants: seq<R>, total: int, isLoading: bool,
                                      currentPage: int, searchId: string)

  /** The state the store is created in: idle, empty, and with nothing more to load. */
  function Initial<R>(): (r: StoreState<R>)
    ensures Idle(r) && !HasMore(r) && r.restaurants == []
  {
    StoreState([], 0, false, 1, "")
  }

  /** `hasMore`: the service reported more restaurants than the store holds. */
  predicate HasMore<R>(s: StoreState<R>) {
    |s.restaurants| < s.total
  }

  /** No operation is under way and the page counter is a page number. */
  predicate Idle<R>(s: StoreState<R>) {
    !s.isLoading && s.currentPage >= 1
  }

  /** `initializeSearch`, field update by field update in the order the source makes them. */
  function InitializeSearchStep<R>(s: StoreState<R>, o: InitOutcome<R>): (r: StoreState<R>)
    ensures !r.isLoading && r.currentPage == 1
    ensures r.restaurants == if o.Found? then o.posts else []
    ensures r.total == if o.Found? then o.total else s.total
    ensures r.searchId == if o.SearchFailed? || o.Found? then o.searchId else s.searchId
  {
    var cleared := s.(isLoading := true).(restaurants := []).(currentPage := 1);
    var fetched :=
      match o
      case LoginFailed => cleared
      case TokenFailed => cleared
      case SearchFailed(id) => cleared.(searchId := id)
      case Found(id, posts, t) => cleared.(searchId := id).(restaurants := posts).(total := t);
    fetched.(isLoading := false)
  }

  /** `loadMore`: nothing while loading or when there is nothing more; otherwise snapshot,
    * then append and advance the page, or restore the snapshot, and clear the flag. */
  function LoadMoreStep<R>(s: StoreState<R>, o: LoadOutcome<R>): (r: StoreState<R>)
    ensures s.isLoading || !HasMore(s) ==> r == s
    ensures !s.isLoading && HasMore(s) && o.Loaded? ==>
              r == s.(restaurants := s.restaurants + o.posts, currentPage := s.currentPage + 1)
    ensures !o.Loaded? ==> r == s
    ensures r.total == s.total && r.searchId == s.searchId
    ensures !s.isLoading ==> !r.isLoading
  {
    if s.isLoading || !HasMore(s) then s
    else
      var loading := s.(isLoading := true);
      var existing := loading.restaurants;
      var fetched :=
        match o
        case Loaded(posts, _) => loading.(restaurants := existing + posts).(currentPage := loading.currentPage + 1)
        case _ => loading.(restaurants := existing);
      fetched.(isLoading := false)
  }

  /** One call on the store, with the outcome of its gateway calls. */
  datatype Op<R> = Initialize(criteria: SearchCriteria, init: InitOutcome<R>) | LoadMore(load: LoadOutcome<R>)

  /** Every call leaves an idle store idle; a search restarts at page 1 and a `loadMore`
    * keeps what was there as a prefix and keeps the total and the search id. */
  function Apply<R>(s: StoreState<R>, op: Op<R>): (r: StoreState<R>)
    ensures Idle(s) ==> Idle(r)
    ensures op.Initialize? ==> !r.isLoading && r.currentPage == 1
    ensures op.LoadMore? ==> s.restaurants <= r.restaurants && r.total == s.total && r.searchId == s.searchId
  {
    match op
    case Initialize(_, o) => InitializeSearchStep(s, o)
    case LoadMore(o) => LoadMoreStep(s, o)
  }

  /** The state after the calls `ops`, one after another. When the last call is a search,
    * whatever came before is gone: the store holds that search's first posts at page 1. */
  function Run<R>(s: StoreState<R>, ops: seq<Op<R>>): (r: StoreState<R>)
    ensures ops != [] && ops[|ops| - 1].Initialize? ==>
              var o := ops[|ops| - 1].init;
              !r.isLoading && r.currentPage == 1 &&
              r.restaurants == (if o.Found? then o.posts else []) &&
              (o.SearchFailed? || o.Found? ==> r.searchId == o.searchId)
    decreases |ops|
  {
    if ops == [] then s else Run(Apply(s, ops[0]), ops[1..])
  }

  /** Every sequence of calls from an idle store leaves it idle. */
  lemma {:induction false} RunKeepsIdle<R>(s: StoreState<R>, ops: seq<Op<R>>)
    requires Idle(s)
    ensures Idle(Run(s, ops))
    decreases |ops|
  {
    if ops != [] {
      var t := Apply(s, ops[0]);
      assert Idle(t);
      RunKeepsIdle(t, ops[1..]);
    }
  }

  /** The calls `loads` made with `loadMore` only. */
  function LoadMores<R>(loads: seq<LoadOutcome<R>>): (ops: seq<Op<R>>)
    ensures |ops| == |loads|
  {
    seq(|loads|, i requires 0 <= i < |loads| => LoadMore(loads[i]))
  }

  /** Between two searches, `loadMore` only ever appends: what was there stays a prefix,
    * the page counter does not go back, and the total and the search id stay put. */
  lemma {:induction false} LoadMoresOnlyAppend<R>(s: StoreState<R>, loads: seq<LoadOutcome<R>>)
    ensures s.restaurants <= Run(s, LoadMores(loads)).restaurants
    ensures s.currentPage <= Run(s, LoadMores(loads)).currentPage
    ensures Run(s, LoadMores(loads)).total == s.total
    ensures Run(s, LoadMores(loads)).searchId == s.searchId
    decreases |loads|
  {
    if loads != [] {
      var t := LoadMoreStep(s, loads[0]);
      assert LoadMores(loads)[0] == LoadMore(loads[0]);
      assert LoadMores(loads)[1..] == LoadMores(loads[1..]);
      LoadMoresOnlyAppend(t, loads[1..]);
    }
  }

  /** Right after a successful search, `hasMore` holds exactly when the first posts fall short of the reported total. */
  lemma FoundHasMore<R>(s: StoreState<R>, id: string, posts: seq<R>, t: int)
    ensures HasMore(InitializeSearchStep(s, Found(id, posts, t))) <==> |posts| < t
  {
  }

  /** A failed search keeps the previous total, so `hasMore` stays true whenever that total was positive,
    * and `loadMore` then fetches the search whose id is still stored. */
  lemma FailedSearchKeepsStaleTotal<R>(s: StoreState<R>, o: InitOutcome<R>, next: seq<R>)
    requires !o.Found? && s.total > 0
    ensures HasMore(InitializeSearchStep(s, o))
    ensures LoadMoreStep(InitializeSearchStep(s, o), Loaded(next, 0)).restaurants == next
  {
  }

  /** `loadMore` changes the store exactly when it is idle, has more and the page arrives; even an empty page moves the page counter. */
  lemma LoadMoreChangesExactly<R>(s: StoreState<R>, o: LoadOutcome<R>)
    ensures LoadMoreStep(s, o) != s ==> !s.isLoading && HasMore(s) && o.Loaded?
    ensures !s.isLoading && HasMore(s) && o.Loaded? ==> LoadMoreStep(s, o) != s
  {
    if !s.isLoading && HasMore(s) && o.Loaded? {
      assert LoadMoreStep(s, o).currentPage == s.currentPage + 1;
    }
  }

  /** Nothing keeps the store at or below the reported total: one `loadMore` can carry it past. */
  lemma LoadMoreCanPassTotal(x: int)
    ensures var s := StoreState([x], 2, false, 1, "id");
            var r := LoadMoreStep(s, Loaded([x, x], 2));
            |r.restaurants| == 3 && |r.restaurants| > r.total
  {
  }

  /** The Pinia store: the five reactive fields and the two actions. */
  class Store<R> {
    var restaurants: seq<R>
    var total: int
    var isLoading: bool
    var currentPage: int
    var searchId: string

    /** The fields, as one value. */
    function State(): StoreState<R>
      reads this
    {
      StoreState(restaurants, total, isLoading, currentPage, searchId)
    }

    /** The store as `defineStore` creates it. */
    constructor ()
      ensures State() == Initial()
    {
      restaurants := [];
      total := 0;
      isLoading := false;
      currentPage := 1;
      searchId := "";
    }

    /** The derived `hasMore`, recomputed on each read. */
    function HasMoreNow(): (b: bool)
      reads this
      ensures b <==> HasMore(State())
    {
      |restaurants| < total
    }

    /** `initializeSearch(criteria)`; the criteria only go into the search token request, which `outcome` stands for. */
    method InitializeSearch(criteria: SearchCriteria, outcome: InitOutcome<R>)
      modifies this
      ensures State() == InitializeSearchStep(old(State()), outcome)
      ensures !isLoading && currentPage == 1
    {
      isLoading := true;
      restaurants := [];
      currentPage := 1;
      match outcome {
        case LoginFailed =>
        case TokenFailed =>
        case SearchFailed(id) =>
          searchId := id;
        case Found(id, posts, t) =>
          searchId := id;
          restaurants := posts;
          total := t;
      }
      isLoading := false;
    }

    /** `loadMore()`. */
    method LoadMore(outcome: LoadOutcome<R>)
      modifies this
      ensures State() == LoadMoreStep(old(State()), outcome)
      ensures total == old(total) && searchId == old(searchId)
    {
      if isLoading || !HasMoreNow() {
        return;
      }
      isLoading := true;
      var existing := restaurants;
      match outcome {
        case Loaded(posts, _) =>
          restaurants := existing + posts;
          currentPage := currentPage + 1;
        case _ =>
          restaurants := existing;
      }
      isLoading := false;
    }
  }
}
