/**
 * The movie-search coordinator: the view model that holds the query text,
 * the handle of the pending search job, the published movie list and the
 * settings UI state, and reacts to search events by issuing fetch requests
 * to the movie repository.
 *
 * Coroutines are modelled sequentially: a launched job runs up to its call
 * of the repository before the next event is handled. The repository, the
 * settings store and the entity-to-movie mapper are outside the model; the
 * store is its persisted `sort` flag, the mapper a constructor parameter,
 * and every repository call is recorded in `requests`.
 */
module Movies {
  import opened Wrappers
  import opened MovieEntities
  import opened KotlinText

  /** The query sent to the repository in place of a blank one. */
  const DefaultQuery: string := "love"

  /** The query getMovies passes on: `query.ifBlank { "love" }`. */
  function EffectiveQuery(query: string): (r: string)
    ensures !IsBlank(r)
    ensures !IsBlank(query) ==> r == query
    ensures IsBlank(query) ==> r == DefaultQuery
  {
    assert IsAsciiAlphanumeric(DefaultQuery[0]);
    IfBlank(query, DefaultQuery)
  }

  /** The persisted user settings, as far as the coordinator reads them. */
  datatype UserSettings = UserSettings(sort: bool)

  datatype UserEditableSettings = UserEditableSettings(sort: bool)

  datatype SettingsUiState = Loading | Success(settings: UserEditableSettings)

  /** The mapping applied to every value of the settings stream. */
  function SettingsUiStateOf(userData: UserSettings): (r: SettingsUiState)
    ensures r.Success? && r.settings.sort == userData.sort
  {
    Success(UserEditableSettings(sort := userData.sort))
  }

  datatype MovieEvent =
    | OnSearchQueryChange(query: string)
    | OnSortToggled(sort: bool)
    | OnSearchInitiated

  /** One call of the repository: the sort flag and the query it was given. */
  datatype Request = Request(sort: bool, query: string)

  class MovieViewModel<Movie> {
    /** The entity-to-movie mapper. */
    const toMovie: MovieEntity -> Movie

    /** The settings store's persisted sort flag. */
    var storedSort: bool
    var settingsUiState: SettingsUiState

    var searchQuery: string
    /** The handle of the last search job, identified by its generation. */
    var searchJob: Option<nat>
    /** The generation the next search job gets. */
    var nextJobId: nat
    /** The search jobs `cancel()` has been called on. */
    var cancelledJobs: set<nat>

    /** Every repository call issued so far, oldest first. */
    var requests: seq<Request>
    var searchedMovies: seq<Movie>

    ghost predicate Valid()
      reads this
    {
      && (forall r :: r in requests ==> !IsBlank(r.query))
      && (forall j :: j in cancelledJobs ==> j < nextJobId)
      && (searchJob.Some? ==> searchJob.value < nextJobId && searchJob.value !in cancelledJobs)
    }

    /**
     * The field initialisers and the `init` block: the query is empty, the
     * published list is empty, the settings UI is loading, and one fetch is
     * issued with the stored sort flag and the (blank) query.
     */
    constructor (storedSort: bool, toMovie: MovieEntity -> Movie)
      ensures Valid()
      ensures this.storedSort == storedSort && this.toMovie == toMovie
      ensures settingsUiState == Loading
      ensures searchQuery == "" && searchedMovies == []
      ensures searchJob == None && nextJobId == 0 && cancelledJobs == {}
      ensures requests == [Request(storedSort, DefaultQuery)]
    {
      this.toMovie := toMovie;
      this.storedSort := storedSort;
      settingsUiState := Loading;
      searchQuery := "";
      searchJob := None;
      nextJobId := 0;
      cancelledJobs := {};
      requests := [];
      searchedMovies := [];
      new;
      GetMovies(this.storedSort, searchQuery);
    }

    /** updateSearchQuery: sets the query and nothing else. */
    method UpdateSearchQuery(query: string)
      modifies this`searchQuery
      ensures searchQuery == query
    {
      searchQuery := query;
    }

    /** getMovies: starts a collection of the repository's results for the sort flag and the effective query. */
    method GetMovies(sort: bool, query: string)
      requires Valid()
      modifies this`requests
      ensures Valid()
      ensures requests == old(requests) + [Request(sort, EffectiveQuery(query))]
    {
      requests := requests + [Request(sort, EffectiveQuery(query))];
    }

    /**
     * A value emitted by the collector of any issued request, the latest or
     * an older one: nothing stops an older collector, so it too replaces the
     * published list, with its entities mapped one to one, in order.
     */
    method OnPagingDataEmitted(ghost fromRequest: nat, entities: seq<MovieEntity>)
      requires fromRequest < |requests|
      modifies this`searchedMovies
      ensures |searchedMovies| == |entities|
      ensures forall i :: 0 <= i < |entities| ==> searchedMovies[i] == toMovie(entities[i])
    {
      searchedMovies := seq(|entities|, i requires 0 <= i < |entities| => toMovie(entities[i]));
    }

    /** A value of the settings stream: the UI state carries the stored sort flag. */
    method OnSettingsEmitted()
      modifies this`settingsUiState
      ensures settingsUiState == SettingsUiStateOf(UserSettings(storedSort))
    {
      settingsUiState := SettingsUiStateOf(UserSettings(storedSort));
    }

    /** onMovieEvent. */
    method OnMovieEvent(event: MovieEvent)
      requires Valid()
      modifies this
      ensures Valid()
      ensures searchedMovies == old(searchedMovies) && settingsUiState == old(settingsUiState)
      // A query equal to the current one changes nothing.
      ensures event.OnSearchQueryChange? && event.query == old(searchQuery) ==> unchanged(this)
      // A new query is recorded, the previous job cancelled and one new job fetches it.
      ensures event.OnSearchQueryChange? && event.query != old(searchQuery) ==>
        && searchQuery == event.query
        && storedSort == old(storedSort)
        && cancelledJobs == old(cancelledJobs) + Elements(old(searchJob))
        && searchJob == Some(old(nextJobId)) && nextJobId == old(nextJobId) + 1
        && requests == old(requests) + [Request(storedSort, EffectiveQuery(event.query))]
      // A sort toggle persists the flag, then fetches the unchanged query with it.
      ensures event.OnSortToggled? ==>
        && storedSort == event.sort
        && searchQuery == old(searchQuery)
        && searchJob == old(searchJob) && nextJobId == old(nextJobId)
        && cancelledJobs == old(cancelledJobs)
        && requests == old(requests) + [Request(event.sort, EffectiveQuery(searchQuery))]
      // An explicit search fetches the query with the stored flag.
      ensures event.OnSearchInitiated? ==>
        && storedSort == old(storedSort)
        && searchQuery == old(searchQuery)
        && searchJob == old(searchJob) && nextJobId == old(nextJobId)
        && cancelledJobs == old(cancelledJobs)
        && requests == old(requests) + [Request(storedSort, EffectiveQuery(searchQuery))]
    {
      match event
      case OnSearchQueryChange(query) =>
        if searchQuery != query {
          UpdateSearchQuery(query);
          cancelledJobs := cancelledJobs + Elements(searchJob);
          searchJob := Some(nextJobId);
          nextJobId := nextJobId + 1;
          GetMovies(storedSort, query);
        }
      case OnSortToggled(sort) =>
        storedSort := sort;
        GetMovies(sort, searchQuery);
      case OnSearchInitiated =>
        GetMovies(storedSort, searchQuery);
    }
  }

  /**
   * A session: "batman" typed twice, a sort toggle, the query cleared, and
   * then a late result of the "batman" fetch.
   */
  method SearchSession(batman: MovieEntity)
  {
    var vm := new MovieViewModel<string>(false, (e: MovieEntity) => e.title);
    assert vm.requests == [Request(false, "love")];

    vm.OnMovieEvent(OnSearchQueryChange("batman"));
    assert IsAsciiAlphanumeric("batman"[0]);
    assert vm.requests == [Request(false, "love"), Request(false, "batman")];
    assert vm.searchJob == Some(0);

    vm.OnMovieEvent(OnSearchQueryChange("batman"));
    assert |vm.requests| == 2;

    vm.OnMovieEvent(OnSortToggled(true));
    assert vm.requests[2] == Request(true, "batman") && vm.searchJob == Some(0);

    vm.OnMovieEvent(OnSearchQueryChange(""));
    assert vm.requests[3] == Request(true, "love");
    assert vm.cancelledJobs == {0} && vm.searchJob == Some(1);

    vm.OnPagingDataEmitted(1, [batman]);
    assert vm.searchedMovies == [batman.title];

    vm.OnSettingsEmitted();
    assert vm.settingsUiState == Success(UserEditableSettings(true));
  }
}
