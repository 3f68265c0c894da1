/**
 * The lucky-draw page: the prize assignment (a roster lookup with a
 * weighted fallback pool), the view sequence login, action video, scratch
 * card, result, and the scratch layer's coverage check.
 */
module App {
  import opened Wrappers
  import opened JsString
  import opened Roster
  import opened Pixels
  import Winner

  // ---------------------------------------------------------------------
  // Prize assignment.

  datatype PoolItem = PoolItem(name: string, weight: int)

  /** The fallback pool: a single entry. */
  const FallbackPool := [PoolItem("參加獎：刮刮樂一張 (現金 200 元)", 100)]

  /** What the pick returns when the loop runs off the end of the pool. */
  const DefaultPrize := "參加獎：現金 200 元"

  /** The sum of the first `k` weights. */
  function Prefix(pool: seq<PoolItem>, k: nat): int
    requires k <= |pool|
  {
    if k == 0 then 0 else pool[0].weight + Prefix(pool[1..], k - 1)
  }

  /** The running total after item `j`: the `random` value the loop has
      to be below to stop at `j`. */
  function Through(pool: seq<PoolItem>, j: nat): int
    requires j < |pool|
  {
    Prefix(pool, j + 1)
  }

  /** `pool.reduce((sum, item) => sum + item.weight, 0)` */
  function TotalWeight(pool: seq<PoolItem>): int {
    Prefix(pool, |pool|)
  }

  /** The index the draw `r` lands on, looking from item `i` on: the first
      item whose running total exceeds `r`. */
  function LandingFrom(pool: seq<PoolItem>, r: real, i: nat): (k: Option<nat>)
    requires i <= |pool|
    ensures k.Some? ==> i <= k.value < |pool| && r < Through(pool, k.value) as real
    ensures k.Some? ==> forall j :: i <= j < k.value ==> Through(pool, j) as real <= r
    ensures k.None? <==> forall j :: i <= j < |pool| ==> Through(pool, j) as real <= r
    decreases |pool| - i
  {
    if i == |pool| then None
    else if r < Through(pool, i) as real then Some(i)
    else LandingFrom(pool, r, i + 1)
  }

  function Landing(pool: seq<PoolItem>, r: real): Option<nat> {
    LandingFrom(pool, r, 0)
  }

  /** The prize the fallback loop returns for the draw `r`. */
  function PickFrom(pool: seq<PoolItem>, r: real): string {
    match Landing(pool, r)
    case Some(i) => pool[i].name
    case None => DefaultPrize
  }

  /** The loop `for (const prize of pool) { if (random < prize.weight)
      return prize.name; random -= prize.weight; }` with `random` started at
      `draw * totalWeight`; `draw` is the value of `Math.random()`. */
  method FallbackPick(pool: seq<PoolItem>, draw: real) returns (name: string)
    ensures name == PickFrom(pool, draw * TotalWeight(pool) as real)
  {
    var start := draw * TotalWeight(pool) as real;
    var random := start;
    var i := 0;
    while i < |pool|
      invariant 0 <= i <= |pool|
      invariant random == start - Prefix(pool, i) as real
      invariant LandingFrom(pool, start, i) == Landing(pool, start)
    {
      PrefixStep(pool, i);
      if random < pool[i].weight as real {
        return pool[i].name;
      }
      random := random - pool[i].weight as real;
      i := i + 1;
    }
    name := DefaultPrize;
  }

  lemma {:induction false} PrefixStep(pool: seq<PoolItem>, i: nat)
    requires i < |pool|
    ensures Through(pool, i) == Prefix(pool, i) + pool[i].weight
  {
    if i > 0 {
      PrefixStep(pool[1..], i - 1);
      assert pool[1..][i - 1] == pool[i];
      assert Through(pool, i) == pool[0].weight + Through(pool[1..], i - 1);
    } else {
      assert Prefix(pool[1..], 0) == 0;
    }
  }

  /** With non-negative weights, a draw in `[0, totalWeight)` lands on the
      item whose weight interval holds it, so the default prize is never
      returned. */
  lemma {:induction false} DrawLandsInPool(pool: seq<PoolItem>, r: real)
    requires forall k :: 0 <= k < |pool| ==> pool[k].weight >= 0
    requires 0.0 <= r < TotalWeight(pool) as real
    ensures Landing(pool, r).Some?
    ensures var i := Landing(pool, r).value;
      Prefix(pool, i) as real <= r < Prefix(pool, i + 1) as real
  {
    assert |pool| > 0 && !(Through(pool, |pool| - 1) as real <= r);
    var i := Landing(pool, r).value;
    if i > 0 {
      assert Through(pool, i - 1) as real <= r;
    }
  }

  /** A `Math.random()` value scaled by a positive total weight is a draw
      inside the pool. */
  lemma ScaledDrawInRange(draw: real, total: int)
    requires 0.0 <= draw < 1.0 && total > 0
    ensures 0.0 <= draw * total as real < total as real
  {
  }

  /** With the one-entry pool the fallback always gives the scratch-card
      prize. */
  lemma FallbackIsScratchCard(draw: real)
    requires 0.0 <= draw < 1.0
    ensures PickFrom(FallbackPool, draw * TotalWeight(FallbackPool) as real) == "參加獎：刮刮樂一張 (現金 200 元)"
  {
    assert TotalWeight(FallbackPool) == 100;
    ScaledDrawInRange(draw, 100);
    DrawLandsInPool(FallbackPool, draw * 100.0);
  }

  /** The outcome of the client's lookup request: the request failed (the
      error is caught), or the lookup handler answered. */
  datatype Lookup = LookupFailed | LookupAnswered(response: Winner.Response)

  /** `res.ok` and a truthy `data.prize`: only a 200 answer with a
      non-empty prize counts. */
  function LookupPrize(lookup: Lookup): (p: Option<string>)
    ensures p.Some? ==> p.value != []
    ensures p.Some? <==> lookup.LookupAnswered? && lookup.response.Found? && Truthy(lookup.response.prize)
  {
    match lookup
    case LookupAnswered(Found(prize, _)) => if Truthy(prize) then prize else None
    case _ => None
  }

  /** `assignPrize`: a prize from the lookup is returned as it is and the
      pool is not consulted; otherwise the fallback pick. */
  method AssignPrize(lookup: Lookup, draw: real) returns (prize: string)
    ensures LookupPrize(lookup).Some? ==> prize == LookupPrize(lookup).value
    ensures LookupPrize(lookup).None? ==> prize == PickFrom(FallbackPool, draw * TotalWeight(FallbackPool) as real)
  {
    var found := LookupPrize(lookup);
    if found.Some? {
      return found.value;
    }
    prize := FallbackPick(FallbackPool, draw);
  }

  /** The request the page sends, `/api/winner?phone=...`: the lookup
      handler reads only `name` and `company`, so it sees neither. */
  function LookupRequestAsWritten(phone: string): Winner.Request {
    Winner.Request("GET", None, None)
  }

  /** As written, the lookup is always refused for want of a name, so the
      page never shows a roster prize. */
  method AskServerAsWritten(phone: string, fetch: Fetch) returns (lookup: Lookup)
    ensures lookup == LookupAnswered(Winner.NameRequired)
    ensures LookupPrize(lookup) == None
  {
    var response := Winner.Handle(LookupRequestAsWritten(phone), fetch);
    lookup := LookupAnswered(response);
  }

  /** The request the lookup handler expects: the name and company from the
      form. */
  function LookupRequest(name: string, company: string): Winner.Request {
    Winner.Request("GET", Some(name), Some(company))
  }

  /** With the name sent, a roster prize reaches the page. */
  method AskServer(name: string, company: string, fetch: Fetch) returns (lookup: Lookup)
    ensures name != [] && fetch.Response? && OkStatus(fetch.status) ==>
      lookup == LookupAnswered(Winner.Resolution(RosterLines(fetch.body), Trim(name), Winner.SearchCompany(Some(company))))
    ensures name != [] && fetch.Response? && OkStatus(fetch.status) ==>
      LookupPrize(lookup) == lookup.response.prize
    ensures !(name != [] && fetch.Response? && OkStatus(fetch.status)) ==> LookupPrize(lookup) == None
  {
    var response := Winner.Handle(LookupRequest(name, company), fetch);
    lookup := LookupAnswered(response);
    if name != [] && fetch.Response? && OkStatus(fetch.status) {
      ServerPrizeReaches(RosterLines(fetch.body), Trim(name), Winner.SearchCompany(Some(company)));
    }
  }

  /** The roster prize the page receives for the form, when the lookup
      handler is reached: none without a name or without the roster. */
  function RosterPrize(name: string, company: string, fetch: Fetch): Option<string> {
    if name != [] && fetch.Response? && OkStatus(fetch.status) then
      Winner.Resolution(RosterLines(fetch.body), Trim(name), Winner.SearchCompany(Some(company))).prize
    else None
  }

  /** A resolved lookup is a 200 answer whose prize, when present, is
      non-empty, so the page takes it as it is. */
  lemma ServerPrizeReaches(lines: seq<string>, searchName: string, searchCompany: string)
    ensures LookupPrize(LookupAnswered(Winner.Resolution(lines, searchName, searchCompany)))
         == Winner.Resolution(lines, searchName, searchCompany).prize
  {
    var r := Winner.Resolution(lines, searchName, searchCompany);
    assert r.Found?;
    if r.prize.Some? {
      Winner.FoundPrizeNonEmpty(lines, searchName, searchCompany);
    }
  }

  // ---------------------------------------------------------------------
  // The page.

  datatype View = LoginView | PlayingAction | ScratchView | ResultView

  datatype FormData = FormData(name: string, company: string, phone: string)

  /** The `name` attribute of the form's three inputs. */
  datatype Field = NameField | CompanyField | PhoneField

  /** `{ ...prev, [name]: value }` */
  function WithField(form: FormData, field: Field, value: string): FormData {
    match field
    case NameField => form.(name := value)
    case CompanyField => form.(company := value)
    case PhoneField => form.(phone := value)
  }

  /** The field an input edits. */
  function FieldOf(form: FormData, field: Field): string {
    match field
    case NameField => form.name
    case CompanyField => form.company
    case PhoneField => form.phone
  }

  /** An edit sets its own field and leaves the other two as they were. */
  lemma EditTouchesOneField(form: FormData, field: Field, value: string, other: Field)
    ensures FieldOf(WithField(form, field, value), field) == value
    ensures other != field ==> FieldOf(WithField(form, field, value), other) == FieldOf(form, other)
  {
  }

  /** The bytes sampled per check: every 16th pixel's alpha byte. */
  const ScratchStep := 4 * 16

  /** Strokes needed before coverage is checked at all. */
  const MinMoves := 20

  /** The coverage test: more than half of the sampled pixels clear. */
  predicate Covered(data: seq<byte>) {
    Exceeds(ClearSamples(data, AlphaOffset, ScratchStep), |data|, ScratchStep, 50)
  }

  /** Coverage, once reached, is kept by further scratching; a layer not
      scratched anywhere is never covered, and a whole layer scratched
      clean always is. */
  lemma CoveredMeaning(before: seq<byte>, after: seq<byte>, groups: nat)
    requires |before| == |after|
    requires forall k :: 0 <= k < |before| && before[k] == 0 ==> after[k] == 0
    ensures Covered(before) ==> Covered(after)
    ensures (forall k :: 0 <= k < |before| ==> before[k] != 0) ==> !Covered(before)
    ensures groups > 0 && |after| == groups * ScratchStep && AllSampledClear(after, AlphaOffset, ScratchStep) ==>
      Covered(after)
  {
    ClearingIsMonotone(before, after, AlphaOffset, ScratchStep);
    if forall k :: 0 <= k < |before| ==> before[k] != 0 {
      UntouchedNeverPasses(before, AlphaOffset, ScratchStep, 50);
    }
    if groups > 0 && |after| == groups * ScratchStep && AllSampledClear(after, AlphaOffset, ScratchStep) {
      FullyClearedPasses(after, groups, ScratchStep, 50);
    }
  }

  class GameApp {
    var view: View
    var formData: FormData
    var loading: bool
    var prize: string
    var isScratched: bool
    /** The scratch effect's own variables, and whether it got a 2D
        drawing context. */
    var isDrawing: bool
    var moveCount: nat
    var hasContext: bool
    /** The 800 ms timer that shows the result is pending. */
    var resultPending: bool

    constructor(hasContext: bool)
      ensures view == LoginView && formData == FormData([], [], []) && !loading && prize == []
      ensures !isScratched && !isDrawing && moveCount == 0 && !resultPending
      ensures this.hasContext == hasContext
    {
      view := LoginView;
      formData := FormData([], [], []);
      loading := false;
      prize := [];
      isScratched := false;
      isDrawing := false;
      moveCount := 0;
      this.hasContext := hasContext;
      resultPending := false;
    }

    /** The action video ended: from the action view go to the card; in any
        other view nothing happens. */
    method HandleVideoEnded()
      modifies this
      ensures view == if old(view) == PlayingAction then ScratchView else old(view)
      ensures formData == old(formData) && loading == old(loading) && prize == old(prize)
      ensures isScratched == old(isScratched) && isDrawing == old(isDrawing) && moveCount == old(moveCount)
      ensures resultPending == old(resultPending) && hasContext == old(hasContext)
    {
      if view == PlayingAction {
        view := ScratchView;
      }
    }

    method HandleInputChange(field: Field, value: string)
      modifies this
      ensures formData == WithField(old(formData), field, value)
      ensures view == old(view) && loading == old(loading) && prize == old(prize)
      ensures isScratched == old(isScratched) && isDrawing == old(isDrawing) && moveCount == old(moveCount)
      ensures resultPending == old(resultPending) && hasContext == old(hasContext)
    {
      formData := WithField(formData, field, value);
    }

    /** The form is submitted: loading starts and the prize is assigned.
        As written, the lookup sends only the phone (see
        `AskServerAsWritten`), so whether or not the lookup handler is
        `reachable`, the prize is the fallback pool's pick for the draw. */
    method HandleLogin(reachable: bool, rosterFetch: Fetch, draw: real)
      modifies this
      ensures loading
      ensures prize == PickFrom(FallbackPool, draw * TotalWeight(FallbackPool) as real)
      ensures view == old(view) && formData == old(formData)
      ensures isScratched == old(isScratched) && isDrawing == old(isDrawing) && moveCount == old(moveCount)
      ensures resultPending == old(resultPending) && hasContext == old(hasContext)
    {
      loading := true;
      var lookup := LookupFailed;
      if reachable {
        lookup := AskServerAsWritten(formData.phone, rosterFetch);
      }
      prize := AssignPrize(lookup, draw);
    }

    /** The login with the corrected lookup (see `AskServer`), which sends the
        form's name and company: the prize is the roster prize when the
        lookup handler is `reachable` and finds the name, the fallback pick
        otherwise. */
    method HandleLoginCorrected(reachable: bool, rosterFetch: Fetch, draw: real)
      modifies this
      ensures loading
      ensures reachable && RosterPrize(formData.name, formData.company, rosterFetch).Some? ==>
        prize == RosterPrize(formData.name, formData.company, rosterFetch).value
      ensures !(reachable && RosterPrize(formData.name, formData.company, rosterFetch).Some?) ==>
        prize == PickFrom(FallbackPool, draw * TotalWeight(FallbackPool) as real)
      ensures view == old(view) && formData == old(formData)
      ensures isScratched == old(isScratched) && isDrawing == old(isDrawing) && moveCount == old(moveCount)
      ensures resultPending == old(resultPending) && hasContext == old(hasContext)
    {
      loading := true;
      var lookup := LookupFailed;
      if reachable {
        lookup := AskServer(formData.name, formData.company, rosterFetch);
      }
      prize := AssignPrize(lookup, draw);
    }

    /** The 500 ms timer after a login: loading ends and the action video
        view starts. */
    method LoginDelayElapsed()
      modifies this
      ensures !loading && view == PlayingAction
      ensures formData == old(formData) && prize == old(prize)
      ensures isScratched == old(isScratched) && isDrawing == old(isDrawing) && moveCount == old(moveCount)
      ensures resultPending == old(resultPending) && hasContext == old(hasContext)
    {
      loading := false;
      view := PlayingAction;
    }

    /** The scratch effect starting in the card view, with its 100 ms
        set-up timer: no stroke in progress, no moves, not scratched. */
    method EnterScratch()
      requires view == ScratchView
      modifies this
      ensures !isDrawing && moveCount == 0 && !isScratched
      ensures view == old(view) && formData == old(formData) && loading == old(loading) && prize == old(prize)
      ensures resultPending == old(resultPending) && hasContext == old(hasContext)
    {
      isDrawing := false;
      moveCount := 0;
      isScratched := false;
    }

    /** One brush stroke: counted only when there is a drawing context. */
    method Scratch()
      modifies this
      ensures moveCount == if hasContext then old(moveCount) + 1 else old(moveCount)
      ensures view == old(view) && formData == old(formData) && loading == old(loading) && prize == old(prize)
      ensures isScratched == old(isScratched) && isDrawing == old(isDrawing)
      ensures resultPending == old(resultPending) && hasContext == old(hasContext)
    {
      if hasContext {
        moveCount := moveCount + 1;
      }
    }

    /** The coverage check: skipped without a context, once scratched, or
        before 20 moves; otherwise a covered layer is marked scratched and
        the result timer started. */
    method CheckTransparency(data: array<byte>)
      modifies this
      ensures var checks := hasContext && !old(isScratched) && moveCount >= MinMoves;
        && isScratched == (old(isScratched) || (checks && Covered(data[..])))
        && resultPending == (old(resultPending) || (checks && Covered(data[..])))
      ensures view == old(view) && formData == old(formData) && loading == old(loading) && prize == old(prize)
      ensures isDrawing == old(isDrawing) && moveCount == old(moveCount) && hasContext == old(hasContext)
    {
      if !hasContext {
        return;
      }
      if isScratched || moveCount < MinMoves {
        return;
      }
      var transparent := CountClear(data, ScratchStep);
      if Exceeds(transparent, data.Length, ScratchStep, 50) {
        isScratched := true;
        resultPending := true;
      }
    }

    /** The 800 ms timer after the layer is covered: show the result. */
    method ResultTimerFired()
      requires resultPending
      modifies this
      ensures view == ResultView && !resultPending
      ensures formData == old(formData) && loading == old(loading) && prize == old(prize)
      ensures isScratched == old(isScratched) && isDrawing == old(isDrawing) && moveCount == old(moveCount)
      ensures hasContext == old(hasContext)
    {
      view := ResultView;
      resultPending := false;
    }

    /** Mouse-down or touch-start: a stroke begins with one scratch. */
    method HandleStart()
      modifies this
      ensures isDrawing
      ensures moveCount == if hasContext then old(moveCount) + 1 else old(moveCount)
      ensures view == old(view) && formData == old(formData) && loading == old(loading) && prize == old(prize)
      ensures isScratched == old(isScratched) && resultPending == old(resultPending) && hasContext == old(hasContext)
    {
      isDrawing := true;
      Scratch();
    }

    /** Mouse or touch move: scratches only during a stroke. */
    method HandleMove()
      modifies this
      ensures moveCount == if old(isDrawing) && hasContext then old(moveCount) + 1 else old(moveCount)
      ensures isDrawing == old(isDrawing)
      ensures view == old(view) && formData == old(formData) && loading == old(loading) && prize == old(prize)
      ensures isScratched == old(isScratched) && resultPending == old(resultPending) && hasContext == old(hasContext)
    {
      if !isDrawing {
        return;
      }
      Scratch();
    }

    /** Mouse-up or touch-end: the stroke ends, then coverage is checked. */
    method HandleEnd(data: array<byte>)
      modifies this
      ensures !isDrawing
      ensures var checks := hasContext && !old(isScratched) && moveCount >= MinMoves;
        && isScratched == (old(isScratched) || (checks && Covered(data[..])))
        && resultPending == (old(resultPending) || (checks && Covered(data[..])))
      ensures view == old(view) && formData == old(formData) && loading == old(loading) && prize == old(prize)
      ensures moveCount == old(moveCount) && hasContext == old(hasContext)
    {
      isDrawing := false;
      CheckTransparency(data);
    }
  }
}
