/** The job list's client-side filtering: the distinct job types and
    locations offered as options, the options narrowed by a
    case-insensitive search, and the jobs narrowed by the selected type
    and location, where an empty selection means "no filter". */
module JobList {
  import opened Jobs
  import opened Seqs
  import opened Text

  /** `jobs.map(job => job.job_type)` */
  function JobTypes(jobs: seq<Job>): seq<string> {
    seq(|jobs|, i requires 0 <= i < |jobs| => jobs[i].jobType)
  }

  /** `jobs.map(job => job.location)` */
  function Locations(jobs: seq<Job>): seq<string> {
    seq(|jobs|, i requires 0 <= i < |jobs| => jobs[i].location)
  }

  /** `Array.from(new Set(jobs.map(job => job.job_type)))` */
  function JobTypeOptions(jobs: seq<Job>): seq<string> {
    Distinct(JobTypes(jobs))
  }

  /** `Array.from(new Set(jobs.map(job => job.location)))` */
  function LocationOptions(jobs: seq<Job>): seq<string> {
    Distinct(Locations(jobs))
  }

  /** The job-type options: each type some job has, once, in the order in
      which the types first appear among the jobs. */
  lemma JobTypeOptionsSpec(jobs: seq<Job>)
    ensures NoDuplicates(JobTypeOptions(jobs))
    ensures forall t :: t in JobTypeOptions(jobs) <==> exists j :: j in jobs && j.jobType == t
    ensures forall a, b :: 0 <= a < b < |JobTypeOptions(jobs)| ==>
              FirstIndex(JobTypes(jobs), JobTypeOptions(jobs)[a]) < FirstIndex(JobTypes(jobs), JobTypeOptions(jobs)[b])
  {
    forall t ensures t in JobTypes(jobs) <==> exists j :: j in jobs && j.jobType == t {
      if t in JobTypes(jobs) {
        var i :| 0 <= i < |jobs| && JobTypes(jobs)[i] == t;
        assert jobs[i] in jobs;
      }
      if exists j :: j in jobs && j.jobType == t {
        var j :| j in jobs && j.jobType == t;
        var i :| 0 <= i < |jobs| && jobs[i] == j;
        assert JobTypes(jobs)[i] == t;
      }
    }
  }

  /** The location options: the same, over locations. */
  lemma LocationOptionsSpec(jobs: seq<Job>)
    ensures NoDuplicates(LocationOptions(jobs))
    ensures forall l :: l in LocationOptions(jobs) <==> exists j :: j in jobs && j.location == l
    ensures forall a, b :: 0 <= a < b < |LocationOptions(jobs)| ==>
              FirstIndex(Locations(jobs), LocationOptions(jobs)[a]) < FirstIndex(Locations(jobs), LocationOptions(jobs)[b])
  {
    forall l ensures l in Locations(jobs) <==> exists j :: j in jobs && j.location == l {
      if l in Locations(jobs) {
        var i :| 0 <= i < |jobs| && Locations(jobs)[i] == l;
        assert jobs[i] in jobs;
      }
      if exists j :: j in jobs && j.location == l {
        var j :| j in jobs && j.location == l;
        var i :| 0 <= i < |jobs| && jobs[i] == j;
        assert Locations(jobs)[i] == l;
      }
    }
  }

  /** `option.toLowerCase().includes(search.toLowerCase())` */
  predicate OptionMatches(option: string, search: string) {
    Contains(ToLower(option), ToLower(search))
  }

  /** `options.filter(o => OptionMatches(o, search))`: the options the
      search keeps, in their order. */
  function FilterOptions(options: seq<string>, search: string): (r: seq<string>)
    ensures IsSubseq(r, options)
    ensures forall o :: o in r <==> o in options && OptionMatches(o, search)
  {
    if options == [] then []
    else if OptionMatches(options[0], search) then [options[0]] + FilterOptions(options[1..], search)
    else FilterOptions(options[1..], search)
  }

  /** Narrowing a duplicate-free option list keeps it duplicate-free. */
  lemma FilterOptionsNoDuplicates(options: seq<string>, search: string)
    requires NoDuplicates(options)
    ensures NoDuplicates(FilterOptions(options, search))
  {
    SubseqNoDuplicates(FilterOptions(options, search), options);
  }

  /** An empty search keeps every option. */
  lemma {:induction false} FilterOptionsEmptySearch(options: seq<string>)
    ensures FilterOptions(options, "") == options
  {
    if options != [] {
      assert ToLower("") == "";
      ContainsEmpty(ToLower(options[0]));
      FilterOptionsEmptySearch(options[1..]);
    }
  }

  /** The search ignores letter case: two searches that lower-case alike
      keep the same options. */
  lemma {:induction false} FilterOptionsIgnoresCase(options: seq<string>, s1: string, s2: string)
    requires ToLower(s1) == ToLower(s2)
    ensures FilterOptions(options, s1) == FilterOptions(options, s2)
  {
    if options != [] {
      FilterOptionsIgnoresCase(options[1..], s1, s2);
    }
  }

  /** In particular, typing the search in capitals changes nothing. */
  lemma FilterOptionsUpperCaseSearch(options: seq<string>, search: string)
    ensures FilterOptions(options, ToUpper(search)) == FilterOptions(options, search)
  {
    LowerOfUpper(search);
    FilterOptionsIgnoresCase(options, ToUpper(search), search);
  }

  /** `selected ? value === selected : true` */
  predicate MatchesSelection(value: string, selected: string) {
    selected == "" || value == selected
  }

  predicate JobMatches(job: Job, selectedType: string, selectedLocation: string) {
    MatchesSelection(job.jobType, selectedType) && MatchesSelection(job.location, selectedLocation)
  }

  /** `filteredJobs`: the jobs that match both selections, in their order,
      each as often as it occurs in `jobs`. */
  function FilterJobs(jobs: seq<Job>, selectedType: string, selectedLocation: string): (r: seq<Job>)
    ensures IsSubseq(r, jobs)
    ensures forall j :: j in r <==> j in jobs && JobMatches(j, selectedType, selectedLocation)
    ensures forall j :: multiset(r)[j] ==
              if JobMatches(j, selectedType, selectedLocation) then multiset(jobs)[j] else 0
  {
    if jobs == [] then []
    else
      var rest := FilterJobs(jobs[1..], selectedType, selectedLocation);
      assert jobs == [jobs[0]] + jobs[1..];
      if JobMatches(jobs[0], selectedType, selectedLocation) then [jobs[0]] + rest else rest
  }

  /** With neither a type nor a location selected every job is shown. */
  lemma {:induction false} FilterJobsNoSelection(jobs: seq<Job>)
    ensures FilterJobs(jobs, "", "") == jobs
  {
    if jobs != [] {
      FilterJobsNoSelection(jobs[1..]);
    }
  }

  /** Filtering the filtered jobs again changes nothing. */
  lemma {:induction false} FilterJobsIdempotent(jobs: seq<Job>, selectedType: string, selectedLocation: string)
    ensures FilterJobs(FilterJobs(jobs, selectedType, selectedLocation), selectedType, selectedLocation) ==
              FilterJobs(jobs, selectedType, selectedLocation)
  {
    if jobs != [] {
      FilterJobsIdempotent(jobs[1..], selectedType, selectedLocation);
      var r := FilterJobs(jobs, selectedType, selectedLocation);
      if JobMatches(jobs[0], selectedType, selectedLocation) {
        assert r[1..] == FilterJobs(jobs[1..], selectedType, selectedLocation);
      }
    }
  }

  /** The two selections act one after the other: the type filter, then
      the location filter over its result. */
  lemma {:induction false} FilterJobsComposes(jobs: seq<Job>, selectedType: string, selectedLocation: string)
    ensures FilterJobs(jobs, selectedType, selectedLocation) ==
              FilterJobs(FilterJobs(jobs, selectedType, ""), "", selectedLocation)
  {
    if jobs != [] {
      FilterJobsComposes(jobs[1..], selectedType, selectedLocation);
      var t := FilterJobs(jobs, selectedType, "");
      if JobMatches(jobs[0], selectedType, "") {
        assert t[1..] == FilterJobs(jobs[1..], selectedType, "");
      }
    }
  }

  /** Adding a location filter never enlarges the type-only result. */
  lemma FilterJobsLocationNarrows(jobs: seq<Job>, selectedType: string, selectedLocation: string)
    ensures IsSubseq(FilterJobs(jobs, selectedType, selectedLocation), FilterJobs(jobs, selectedType, ""))
    ensures |FilterJobs(jobs, selectedType, selectedLocation)| <= |FilterJobs(jobs, selectedType, "")|
  {
    FilterJobsComposes(jobs, selectedType, selectedLocation);
    SubseqLength(FilterJobs(jobs, selectedType, selectedLocation), FilterJobs(jobs, selectedType, ""));
  }

  /** Selecting any offered job type, with no location selected, leaves at
      least one job on screen: the offered types all come from the jobs. */
  lemma OfferedTypeMatchesSomeJob(jobs: seq<Job>, option: string)
    requires option in JobTypeOptions(jobs)
    ensures FilterJobs(jobs, option, "") != []
  {
    JobTypeOptionsSpec(jobs);
    var j :| j in jobs && j.jobType == option;
    assert j in FilterJobs(jobs, option, "");
  }

  /** Likewise for an offered location with no type selected. */
  lemma OfferedLocationMatchesSomeJob(jobs: seq<Job>, option: string)
    requires option in LocationOptions(jobs)
    ensures FilterJobs(jobs, "", option) != []
  {
    LocationOptionsSpec(jobs);
    var j :| j in jobs && j.location == option;
    assert j in FilterJobs(jobs, "", option);
  }

  /** The filter state of the job list: the six `useState` variables, over
      the `jobs` the component is given. */
  class FilterPanel {
    const jobs: seq<Job>
    var selectedType: string
    var typeSearch: string
    var isTypeDropdownOpen: bool
    var selectedLocation: string
    var locationSearch: string
    var isLocationDropdownOpen: bool

    /** Every filter starts empty and both dropdowns closed. */
    constructor (jobs: seq<Job>)
      ensures this.jobs == jobs
      ensures selectedType == "" && typeSearch == "" && !isTypeDropdownOpen
      ensures selectedLocation == "" && locationSearch == "" && !isLocationDropdownOpen
      ensures FilteredJobs() == jobs
    {
      this.jobs := jobs;
      selectedType, typeSearch, isTypeDropdownOpen := "", "", false;
      selectedLocation, locationSearch, isLocationDropdownOpen := "", "", false;
      FilterJobsNoSelection(jobs);
    }

    /** `filteredJobTypeOptions` */
    function FilteredJobTypeOptions(): seq<string>
      reads this
    {
      FilterOptions(JobTypeOptions(jobs), typeSearch)
    }

    /** `filteredLocationOptions` */
    function FilteredLocationOptions(): seq<string>
      reads this
    {
      FilterOptions(LocationOptions(jobs), locationSearch)
    }

    /** `filteredJobs` */
    function FilteredJobs(): seq<Job>
      reads this
    {
      FilterJobs(jobs, selectedType, selectedLocation)
    }

    /** `handleClearFilters`: back to the initial state, every job and
      every option shown. */
    method ClearFilters()
      modifies this
      ensures selectedType == "" && typeSearch == "" && !isTypeDropdownOpen
      ensures selectedLocation == "" && locationSearch == "" && !isLocationDropdownOpen
      ensures FilteredJobs() == jobs
      ensures FilteredJobTypeOptions() == JobTypeOptions(jobs)
      ensures FilteredLocationOptions() == LocationOptions(jobs)
    {
      selectedType := "";
      typeSearch := "";
      selectedLocation := "";
      locationSearch := "";
      isTypeDropdownOpen := false;
      isLocationDropdownOpen := false;
      FilterJobsNoSelection(jobs);
      FilterOptionsEmptySearch(JobTypeOptions(jobs));
      FilterOptionsEmptySearch(LocationOptions(jobs));
    }

    /** The job-type button opens or closes its dropdown. */
    method ToggleTypeDropdown()
      modifies this`isTypeDropdownOpen
      ensures isTypeDropdownOpen == !old(isTypeDropdownOpen)
    {
      isTypeDropdownOpen := !isTypeDropdownOpen;
    }

    /** Typing in the job-type search box. */
    method SetTypeSearch(text: string)
      modifies this`typeSearch
      ensures typeSearch == text
      ensures FilteredJobTypeOptions() == FilterOptions(JobTypeOptions(jobs), text)
    {
      typeSearch := text;
    }

    /** Clicking a job-type option: it becomes the selection, the dropdown
      closes and its search clears; the location state is untouched. */
    method SelectType(option: string)
      modifies this`selectedType, this`isTypeDropdownOpen, this`typeSearch
      ensures selectedType == option && !isTypeDropdownOpen && typeSearch == ""
      ensures unchanged(this`selectedLocation, this`locationSearch, this`isLocationDropdownOpen)
      ensures forall j :: j in FilteredJobs() ==> j in jobs && MatchesSelection(j.jobType, option)
      ensures option in JobTypeOptions(jobs) && selectedLocation == "" ==> FilteredJobs() != []
    {
      selectedType := option;
      isTypeDropdownOpen := false;
      typeSearch := "";
      if option in JobTypeOptions(jobs) {
        OfferedTypeMatchesSomeJob(jobs, option);
      }
    }

    /** The job-type "Clear filter" entry: no type selected, dropdown
      closed, search cleared; the location state is untouched. */
    method ClearTypeFilter()
      modifies this`selectedType, this`isTypeDropdownOpen, this`typeSearch
      ensures selectedType == "" && !isTypeDropdownOpen && typeSearch == ""
      ensures unchanged(this`selectedLocation, this`locationSearch, this`isLocationDropdownOpen)
      ensures FilteredJobs() == FilterJobs(jobs, "", selectedLocation)
    {
      selectedType := "";
      isTypeDropdownOpen := false;
      typeSearch := "";
    }

    /** The location button opens or closes its dropdown. */
    method ToggleLocationDropdown()
      modifies this`isLocationDropdownOpen
      ensures isLocationDropdownOpen == !old(isLocationDropdownOpen)
    {
      isLocationDropdownOpen := !isLocationDropdownOpen;
    }

    /** Typing in the location search box. */
    method SetLocationSearch(text: string)
      modifies this`locationSearch
      ensures locationSearch == text
      ensures FilteredLocationOptions() == FilterOptions(LocationOptions(jobs), text)
    {
      locationSearch := text;
    }

    /** Clicking a location option: it becomes the selection, the dropdown
      closes and its search clears; the job-type state is untouched. */
    method SelectLocation(option: string)
      modifies this`selectedLocation, this`isLocationDropdownOpen, this`locationSearch
      ensures selectedLocation == option && !isLocationDropdownOpen && locationSearch == ""
      ensures unchanged(this`selectedType, this`typeSearch, this`isTypeDropdownOpen)
      ensures forall j :: j in FilteredJobs() ==> j in jobs && MatchesSelection(j.location, option)
      ensures option in LocationOptions(jobs) && selectedType == "" ==> FilteredJobs() != []
    {
      selectedLocation := option;
      isLocationDropdownOpen := false;
      locationSearch := "";
      if option in LocationOptions(jobs) {
        OfferedLocationMatchesSomeJob(jobs, option);
      }
    }

    /** The location "Clear filter" entry: no location selected, dropdown
      closed, search cleared; the job-type state is untouched. */
    method ClearLocationFilter()
      modifies this`selectedLocation, this`isLocationDropdownOpen, this`locationSearch
      ensures selectedLocation == "" && !isLocationDropdownOpen && locationSearch == ""
      ensures unchanged(this`selectedType, this`typeSearch, this`isTypeDropdownOpen)
      ensures FilteredJobs() == FilterJobs(jobs, selectedType, "")
    {
      selectedLocation := "";
      isLocationDropdownOpen := false;
      locationSearch := "";
    }
  }
}
