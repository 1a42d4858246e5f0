/** Pages of a list: what a request's query asks for, and what the server answers. */
module Pagination {
  import opened Wrappers
  import opened Basics
  import opened Texts
  import opened Decimals

  const DEFAULT_PAGE_LIMIT := 20
  const MAX_PAGE_LIMIT := 100
  const MAX_SAFE_INTEGER := 0x1F_FFFF_FFFF_FFFF

  datatype PageParams = PageParams(limit: nat, offset: nat)

  datatype Page<T> = Page(items: seq<T>, limit: nat, offset: nat, hasMore: bool)

  /** `Number(searchParams.get(name))`: an absent parameter is null, which is zero. */
  function ParamNumber(text: Option<Text>): Option<real> {
    if text.Some? then ToNumber(text.value) else Some(0.0)
  }

  /** The number, if `Number.isSafeInteger` holds of it. */
  function SafeInteger(x: Option<real>): Option<int> {
    if x.Some? && x.value == x.value.Floor as real && -MAX_SAFE_INTEGER <= x.value.Floor <= MAX_SAFE_INTEGER
    then Some(x.value.Floor)
    else None
  }

  /** Whatever the query says, the limit is from 1 to 100 and the offset a safe integer. */
  function ParsePageParams(limitText: Option<Text>, offsetText: Option<Text>): (params: PageParams)
    ensures 1 <= params.limit <= MAX_PAGE_LIMIT && params.offset <= MAX_SAFE_INTEGER
  {
    var rawLimit, rawOffset := SafeInteger(ParamNumber(limitText)), SafeInteger(ParamNumber(offsetText));
    var limit :=
      if rawLimit.Some? && rawLimit.value > 0 then Min(rawLimit.value, MAX_PAGE_LIMIT) else DEFAULT_PAGE_LIMIT;
    var offset := if rawOffset.Some? && rawOffset.value >= 0 then rawOffset.value else 0;
    PageParams(limit, offset)
  }

  predicate Whole(x: Option<real>, least: real) {
    x.Some? && x.value == x.value.Floor as real && least <= x.value < 9007199254740992.0
  }

  /** In numbers: a whole limit from 1 to 100 is taken as it is, a larger one up to 2^53 - 1
      as 100, and anything else as 20; a whole offset from 0 to 2^53 - 1 is taken as it is,
      and anything else as 0. An absent parameter counts as zero. */
  lemma ParamsAre(limitText: Option<Text>, offsetText: Option<Text>)
    ensures var params := ParsePageParams(limitText, offsetText);
            var l := if limitText.Some? then ToNumber(limitText.value) else Some(0.0);
            var o := if offsetText.Some? then ToNumber(offsetText.value) else Some(0.0);
            && (Whole(l, 1.0) && l.value <= 100.0 ==> params.limit as real == l.value)
            && (Whole(l, 1.0) && l.value > 100.0 ==> params.limit == 100)
            && (!Whole(l, 1.0) ==> params.limit == 20)
            && (Whole(o, 0.0) ==> params.offset as real == o.value)
            && (!Whole(o, 0.0) ==> params.offset == 0)
  {
    hide ToNumber;
  }

  function ToPage<T>(rows: seq<T>, params: PageParams): Page<T> {
    var hasMore := |rows| > params.limit;
    Page(if hasMore then rows[..params.limit] else rows, params.limit, params.offset, hasMore)
  }

  /** The rows from `offset` on, at most `limit` of them. */
  function Rows<T>(data: seq<T>, limit: nat, offset: nat): seq<T> {
    data[Min(offset, |data|)..Min(offset + limit, |data|)]
  }

  /** The list route: it fetches one row more than it shows. */
  function Serve<T>(data: seq<T>, params: PageParams): Page<T> {
    ToPage(Rows(data, params.limit + 1, params.offset), params)
  }

  /** The page holds the rows asked for, and knows whether any come after them. */
  lemma ServeIsExact<T>(data: seq<T>, params: PageParams)
    ensures Serve(data, params).items == Rows(data, params.limit, params.offset)
    ensures Serve(data, params).hasMore <==> params.offset + params.limit < |data|
  {
  }

  /** Numbers the client prints are read back as they are, up to the cap on the limit
      and the default for zero. */
  lemma PrintedParamsRead(limit: nat, offset: nat)
    requires limit <= MAX_SAFE_INTEGER && offset <= MAX_SAFE_INTEGER
    ensures ParsePageParams(Some(Digits(limit)), Some(Digits(offset)))
         == PageParams(if limit == 0 then DEFAULT_PAGE_LIMIT else Min(limit, MAX_PAGE_LIMIT), offset)
    ensures ParsePageParams(None, Some(Digits(offset))) == PageParams(DEFAULT_PAGE_LIMIT, offset)
  {
    hide Digits, ToNumber;
    IntegerReads(limit);
    IntegerReads(offset);
    FloorOfInteger(limit);
    FloorOfInteger(offset);
  }

  lemma FloorOfInteger(n: nat)
    ensures (n as real).Floor == n
  {
  }
}

/** The agreements list: a first page, a "load more" button, and reloads. */
module AgreementsList {
  import opened Wrappers
  import opened Basics
  import opened Texts
  import opened Decimals
  import opened Pagination

  // ---------------------------------------------------------------- runs

  /** The list over an unchanging dataset; `asked` is the offset of the request in
      flight. */
  datatype State<T> = State(list: seq<T>, hasMore: bool, asked: Option<nat>)

  datatype Step = Reload | Click | Arrive | Fail

  function Apply<T>(data: seq<T>, limit: nat, s: State<T>, step: Step): State<T> {
    match step
    case Reload =>
      var page := Serve(data, PageParams(limit, 0));
      s.(list := page.items, hasMore := page.hasMore)
    case Click => if s.hasMore && s.asked.None? then s.(asked := Some(|s.list|)) else s
    case Arrive =>
      if s.asked.None? then s
      else
        var page := Serve(data, PageParams(limit, s.asked.value));
        State(s.list + page.items, page.hasMore, None)
    case Fail => s.(asked := None)
  }

  function After<T>(data: seq<T>, limit: nat, steps: seq<Step>): State<T> {
    if steps == [] then State(Serve(data, PageParams(limit, 0)).items, Serve(data, PageParams(limit, 0)).hasMore, None)
    else Apply(data, limit, After(data, limit, steps[..|steps| - 1]), steps[|steps| - 1])
  }

  // ---------------------------------------------------------------- the component

  /** The component's state, and its handlers cut where they wait for the server. */
  class AgreementsList<T> {
    /** Whether there is an active profile that requests can name. */
    var active: bool
    var agreements: seq<T>
    var hasMore: bool
    var loadingMore: bool

    /** The state of the run the component is in, given the request in flight. */
    ghost function View(asked: Option<nat>): State<T>
      reads this
    {
      State(agreements, hasMore, asked)
    }

    constructor ()
      ensures !active && agreements == [] && !hasMore && !loadingMore
    {
      active, agreements, hasMore, loadingMore := false, [], false, false;
    }

    /** The answer to the first request of `load`: a profile, and whether requests can
        name it. None stands for any refusal, which leaves the last profile in place. */
    method ProfileArrived(named: Option<bool>)
      modifies this`active
      ensures active == if named.Some? then named.value else old(active)
    {
      if named.Some? {
        active := named.value;
      }
    }

    /** The answer to its second request; None stands for any refusal. */
    method LoadArrived(page: Option<Page<T>>)
      modifies this`agreements, this`hasMore
      ensures page.Some? ==> agreements == page.value.items && hasMore == page.value.hasMore
      ensures page.None? ==> agreements == old(agreements) && hasMore == old(hasMore)
      ensures forall data, limit | page == Some(Serve(data, PageParams(limit, 0))) ::
        View(None) == After(data, limit, [])
      ensures forall data, limit, asked: Option<nat> | page == Some(Serve(data, PageParams(limit, 0))) ::
        View(asked) == Apply(data, limit, State(old(agreements), old(hasMore), asked), Reload)
    {
      if page.None? {
        return;
      }
      agreements, hasMore := page.value.items, page.value.hasMore;
    }

    /** The offset asked for, if a request goes out. The button shows while there is
        more. */
    method LoadMoreClicked() returns (offset: Option<Text>)
      modifies this`loadingMore
      ensures offset == if active && !old(loadingMore) then Some(Digits(|agreements|)) else None
      ensures loadingMore == (old(loadingMore) || active)
      ensures forall data, limit, asked: Option<nat> | active && hasMore && asked.Some? == old(loadingMore) ::
        var t := Apply(data, limit, State(old(agreements), old(hasMore), asked), Click);
        && View(t.asked) == t && loadingMore == t.asked.Some?
        && offset == if asked.None? then Some(Digits(t.asked.value)) else None
    {
      if !active || loadingMore {
        return None;
      }
      loadingMore := true;
      return Some(Digits(|agreements|));
    }

    method LoadMoreArrived(page: Option<Page<T>>)
      modifies this`agreements, this`hasMore, this`loadingMore
      ensures !loadingMore
      ensures page.Some? ==> agreements == old(agreements) + page.value.items && hasMore == page.value.hasMore
      ensures page.None? ==> agreements == old(agreements) && hasMore == old(hasMore)
      ensures forall data, limit, asked: nat ::
        var s := State(old(agreements), old(hasMore), Some(asked));
        && (page == Some(Serve(data, PageParams(limit, asked))) ==> View(None) == Apply(data, limit, s, Arrive))
        && (page == None ==> View(None) == Apply(data, limit, s, Fail))
    {
      if page.Some? {
        agreements, hasMore := agreements + page.value.items, page.value.hasMore;
      }
      loadingMore := false;
    }
  }

  // ---------------------------------------------------------------- which runs keep a prefix

  /** Each step of a run asks what the client would ask: the client prints its count and
      no limit, and the server reads that back. */
  lemma RequestReaches<T>(data: seq<T>, offset: nat)
    requires offset <= MAX_SAFE_INTEGER
    ensures Serve(data, ParsePageParams(None, Some(Digits(offset))))
         == Serve(data, PageParams(DEFAULT_PAGE_LIMIT, offset))
    ensures Serve(data, ParsePageParams(None, None)) == Serve(data, PageParams(DEFAULT_PAGE_LIMIT, 0))
  {
    PrintedParamsRead(0, offset);
  }

  /** The list is a beginning of the data, `hasMore` says whether it is all of it, and a
      request in flight asks for a row that exists. */
  ghost predicate Good<T>(data: seq<T>, limit: nat, s: State<T>) {
    && s.list <= data && |s.list| >= Min(limit, |data|)
    && (s.hasMore <==> |s.list| < |data|)
    && (s.asked.Some? ==> limit <= s.asked.value < |data|)
  }

  /** A reload overtakes a request when more than one page was shown at the click. */
  predicate Overtakes<T>(limit: nat, s: State<T>, step: Step) {
    step.Reload? && s.asked.Some? && s.asked.value > limit
  }

  /** A reload has overtaken the request in flight: it came after the click, and the
      request has not been answered since. */
  ghost predicate Overtaken<T>(data: seq<T>, limit: nat, steps: seq<Step>) {
    exists r: nat | r < |steps| ::
      && Overtakes(limit, After(data, limit, steps[..r]), steps[r])
      && forall k | r < k < |steps| :: !steps[k].Arrive? && !steps[k].Fail?
  }

  /** Step q answers a request that a reload has overtaken. */
  ghost predicate LateAt<T>(data: seq<T>, limit: nat, steps: seq<Step>, q: nat)
    requires q < |steps|
  {
    steps[q].Arrive? && Overtaken(data, limit, steps[..q])
  }

  ghost predicate NoneLate<T>(data: seq<T>, limit: nat, steps: seq<Step>) {
    forall q: nat | q < |steps| :: !LateAt(data, limit, steps, q)
  }

  lemma OvertakenSnoc<T>(data: seq<T>, limit: nat, steps: seq<Step>)
    requires steps != []
    ensures var n := |steps| - 1;
            Overtaken(data, limit, steps) <==>
            || Overtakes(limit, After(data, limit, steps[..n]), steps[n])
            || (Overtaken(data, limit, steps[..n]) && !steps[n].Arrive? && !steps[n].Fail?)
  {
    hide Overtakes, After;
    var n := |steps| - 1;
    assert forall r: nat | r <= n :: steps[..n][..r] == steps[..r];
    if Overtaken(data, limit, steps[..n]) && !steps[n].Arrive? && !steps[n].Fail? {
      var r: nat :| r < n && Overtakes(limit, After(data, limit, steps[..n][..r]), steps[..n][r])
        && forall k | r < k < n :: !steps[..n][k].Arrive? && !steps[..n][k].Fail?;
      assert forall k | r < k < n :: steps[..n][k] == steps[k];
      assert Overtakes(limit, After(data, limit, steps[..r]), steps[r]);
    }
    if Overtaken(data, limit, steps) {
      var r: nat :| r <= n && Overtakes(limit, After(data, limit, steps[..r]), steps[r])
        && forall k | r < k < |steps| :: !steps[k].Arrive? && !steps[k].Fail?;
      if r < n {
        assert Overtakes(limit, After(data, limit, steps[..n][..r]), steps[..n][r]);
      }
    }
  }

  lemma NoneLateSnoc<T>(data: seq<T>, limit: nat, steps: seq<Step>)
    requires steps != []
    ensures var n := |steps| - 1;
            NoneLate(data, limit, steps) <==> NoneLate(data, limit, steps[..n]) && !LateAt(data, limit, steps, n)
  {
    hide Overtaken;
    var n := |steps| - 1;
    forall q: nat | q < n ensures LateAt(data, limit, steps[..n], q) == LateAt(data, limit, steps, q) {
      assert steps[..n][..q] == steps[..q];
    }
  }

  /** A request in flight that was not overtaken asks for what comes next; one that was
      asks for a row further on. */
  ghost predicate AsksNext<T>(limit: nat, s: State<T>, overtaken: bool) {
    && (overtaken ==> s.asked.Some? && s.asked.value > limit && |s.list| == limit)
    && (!overtaken && s.asked.Some? ==> s.asked.value == |s.list|)
  }

  lemma StepKeepsGood<T>(data: seq<T>, limit: nat, s: State<T>, step: Step, overtaken: bool)
    requires limit > 0 && Good(data, limit, s) && AsksNext(limit, s, overtaken) && !(step.Arrive? && overtaken)
    ensures var t := Apply(data, limit, s, step);
            && Good(data, limit, t)
            && AsksNext(limit, t, Overtakes(limit, s, step) || (overtaken && !step.Arrive? && !step.Fail?))
  {
    if step.Reload? {
      ServeIsExact(data, PageParams(limit, 0));
    } else if step.Arrive? && s.asked.Some? {
      ServeIsExact(data, PageParams(limit, s.asked.value));
      assert s.list + Rows(data, limit, |s.list|) == data[..Min(|s.list| + limit, |data|)];
    }
  }

  /** Whatever fails, is clicked twice or reloaded: as long as no answer comes to a
      request that a reload has overtaken, the list is at all times a beginning of the
      data and `hasMore` tells whether it is all. */
  lemma {:induction false} ListIsPrefix<T>(data: seq<T>, limit: nat, steps: seq<Step>)
    requires limit > 0 && NoneLate(data, limit, steps)
    ensures Good(data, limit, After(data, limit, steps))
    ensures AsksNext(limit, After(data, limit, steps), Overtaken(data, limit, steps))
  {
    hide Overtaken, Good, AsksNext, Apply;
    if steps == [] {
      FirstIsGood(data, limit);
    } else {
      var n := |steps| - 1;
      NoneLateSnoc(data, limit, steps);
      ListIsPrefix(data, limit, steps[..n]);
      assert !LateAt(data, limit, steps, n);
      StepKeepsGood(data, limit, After(data, limit, steps[..n]), steps[n], Overtaken(data, limit, steps[..n]));
      OvertakenSnoc(data, limit, steps);
    }
  }

  lemma FirstIsGood<T>(data: seq<T>, limit: nat)
    requires limit > 0
    ensures Good(data, limit, After(data, limit, []))
    ensures AsksNext(limit, After(data, limit, []), Overtaken(data, limit, []))
  {
    ServeIsExact(data, PageParams(limit, 0));
  }

  ghost predicate DistinctRows<T>(data: seq<T>) {
    forall i, j | 0 <= i < j < |data| :: data[i] != data[j]
  }

  /** The answer to an overtaken request puts a row where another belongs. */
  lemma LateAnswerSpoils<T>(data: seq<T>, limit: nat, s: State<T>)
    requires limit > 0 && DistinctRows(data) && Good(data, limit, s) && AsksNext(limit, s, true)
    ensures !(Apply(data, limit, s, Arrive).list <= data)
  {
    ServeIsExact(data, PageParams(limit, s.asked.value));
    assert Apply(data, limit, s, Arrive).list[limit] == data[s.asked.value];
  }

  /** The list is a beginning of the data after every step. */
  ghost predicate AlwaysPrefix<T>(data: seq<T>, limit: nat, steps: seq<Step>) {
    forall n: nat | n <= |steps| :: After(data, limit, steps[..n]).list <= data
  }

  lemma AlwaysPrefixSnoc<T>(data: seq<T>, limit: nat, steps: seq<Step>)
    requires steps != []
    ensures AlwaysPrefix(data, limit, steps) <==>
      AlwaysPrefix(data, limit, steps[..|steps| - 1]) && After(data, limit, steps).list <= data
  {
    hide After;
    var n := |steps| - 1;
    assert steps[..|steps|] == steps;
    forall m: nat | m <= n ensures steps[..n][..m] == steps[..m] {}
    if AlwaysPrefix(data, limit, steps[..n]) && After(data, limit, steps).list <= data {
      forall m: nat | m <= |steps| ensures After(data, limit, steps[..m]).list <= data {
        if m <= n {
          assert After(data, limit, steps[..n][..m]).list <= data;
        }
      }
    }
    if AlwaysPrefix(data, limit, steps) {
      forall m: nat | m <= n ensures After(data, limit, steps[..n][..m]).list <= data {
        assert After(data, limit, steps[..m]).list <= data;
      }
    }
  }

  /** Over every run on distinct rows: the list is a beginning of the data after every
      step exactly when no answer comes to a request that a reload has overtaken. */
  lemma {:induction false} PrefixIffNoneLate<T>(data: seq<T>, limit: nat, steps: seq<Step>)
    requires limit > 0 && DistinctRows(data)
    ensures AlwaysPrefix(data, limit, steps) <==> NoneLate(data, limit, steps)
  {
    hide Overtaken, Good, AsksNext, Apply, AlwaysPrefix, NoneLate, DistinctRows;
    if steps == [] {
      NothingLate(data, limit);
    } else {
      var n := |steps| - 1;
      PrefixIffNoneLate(data, limit, steps[..n]);
      AlwaysPrefixSnoc(data, limit, steps);
      NoneLateSnoc(data, limit, steps);
      if NoneLate(data, limit, steps) {
        PrefixWhenGood(data, limit, steps);
      } else if NoneLate(data, limit, steps[..n]) {
        ListIsPrefix(data, limit, steps[..n]);
        LateAnswerSpoils(data, limit, After(data, limit, steps[..n]));
      }
    }
  }

  lemma NothingLate<T>(data: seq<T>, limit: nat)
    requires limit > 0
    ensures AlwaysPrefix(data, limit, []) && NoneLate(data, limit, [])
  {
    FirstIsGood(data, limit);
  }

  lemma PrefixWhenGood<T>(data: seq<T>, limit: nat, steps: seq<Step>)
    requires limit > 0 && NoneLate(data, limit, steps)
    ensures After(data, limit, steps).list <= data
  {
    ListIsPrefix(data, limit, steps);
  }

  // ---------------------------------------------------------------- how many requests

  /** k more clicks, each answered before the next. */
  function Rounds(k: nat): seq<Step> {
    if k == 0 then [] else Rounds(k - 1) + [Click, Arrive]
  }

  /** Requests that load everything: one, or as many as there are pages. */
  function Requests(n: nat, limit: nat): nat
    requires limit > 0
  {
    if n == 0 then 1 else (n + limit - 1) / limit
  }

  lemma Round<T>(data: seq<T>, limit: nat, steps: seq<Step>)
    ensures After(data, limit, steps + [Click, Arrive])
         == Apply(data, limit, Apply(data, limit, After(data, limit, steps), Click), Arrive)
  {
    hide Apply;
    var all := steps + [Click, Arrive];
    var clicked := steps + [Click];
    assert all[..|all| - 1] == clicked && clicked[..|clicked| - 1] == steps;
    assert After(data, limit, clicked) == Apply(data, limit, After(data, limit, steps), Click);
  }

  /** The first `shown` rows are on the list, and nothing is in flight. */
  ghost predicate Shows<T>(data: seq<T>, s: State<T>, shown: nat) {
    s.asked.None? && s.list == data[..Min(shown, |data|)] && (s.hasMore <==> shown < |data|)
  }

  lemma OneRound<T>(data: seq<T>, limit: nat, s: State<T>, shown: nat)
    requires limit > 0 && Shows(data, s, shown)
    ensures Shows(data, Apply(data, limit, Apply(data, limit, s, Click), Arrive), shown + limit)
  {
    if s.hasMore {
      ServeIsExact(data, PageParams(limit, shown));
      assert data[..shown] + Rows(data, limit, shown) == data[..Min(shown + limit, |data|)];
    }
  }

  lemma {:induction false} RoundsLoad<T>(data: seq<T>, limit: nat, k: nat)
    requires limit > 0
    ensures Shows(data, After(data, limit, Rounds(k)), (k + 1) * limit)
  {
    hide Shows, Apply, After;
    if k == 0 {
      FirstPage(data, limit);
    } else {
      RoundsLoad(data, limit, k - 1);
      Round(data, limit, Rounds(k - 1));
      OneRound(data, limit, After(data, limit, Rounds(k - 1)), k * limit);
    }
    OneMore(k, limit);
  }

  lemma OneMore(k: nat, limit: nat)
    ensures (k + 1) * limit == k * limit + limit
  {
  }

  lemma FirstPage<T>(data: seq<T>, limit: nat)
    requires limit > 0
    ensures Shows(data, After(data, limit, []), limit)
  {
    ServeIsExact(data, PageParams(limit, 0));
  }

  lemma PagesNeeded(n: nat, limit: nat, k: nat)
    requires limit > 0
    ensures (k + 1) * limit < n <==> k + 1 < Requests(n, limit)
  {
    if n > 0 {
      var r := Requests(n, limit);
      assert r * limit >= n && (r - 1) * limit < n;
      if k + 1 < r {
        MulMonotone(limit, k + 1, r - 1);
      } else {
        MulMonotone(limit, r, k + 1);
      }
    }
  }

  /** Counting the first page, the list is complete, in order, after exactly as many
      requests as there are pages, and "load more" is offered until then. */
  lemma CompleteAfterRequests<T>(data: seq<T>, limit: nat, k: nat)
    requires limit > 0
    ensures var s := After(data, limit, Rounds(k));
            && (s.hasMore <==> k + 1 < Requests(|data|, limit))
            && (k + 1 >= Requests(|data|, limit) ==> s.list == data)
            && (k + 1 < Requests(|data|, limit) ==> s.list < data)
  {
    hide After, Rounds, Requests;
    RoundsLoad(data, limit, k);
    PagesNeeded(|data|, limit, k);
  }
}
