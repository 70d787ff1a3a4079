/** The request validators of the TypeScript API (`validateDetectRequest`,
    `validateResolveRequest`, `validateStepRequest`): each returns the first problem it
    finds, in the order the checks are written, or nothing for an acceptable body. Each is
    proved to accept exactly the bodies described by a declarative well-formedness
    predicate, and an accepted body is converted to a valid engine state. */
module TsValidation {
  import opened Wrappers
  import opened BankerState
  import opened Safety
  import opened StepSafety
  import opened Resolution

  /** A parsed JSON value; JSON numbers are reals. */
  datatype Json =
    | JNull
    | JBool(b: bool)
    | JNumber(n: real)
    | JString(str: string)
    | JArray(items: seq<Json>)
    | JObject(fields: map<string, Json>)

  /** The first problem found; the API turns each into its message string. */
  datatype RequestError =
    | BodyNotObject
    | BadNumProcesses
    | BadNumResources
    | BadAvailable
    | BadAvailableEntry(j: nat)
    | BadAllocation
    | BadAllocationRow(i: nat)
    | BadAllocationEntry(i: nat, j: nat)
    | BadMaxNeed
    | BadMaxNeedRow(i: nat)
    | BadMaxNeedEntry(i: nat, j: nat)
    | AllocationExceedsMax(i: nat, j: nat)
    | BadVictim
    | BadStepState
    | BadWork
    | BadWorkEntry(j: nat)
    | BadFinish
    | BadFinishEntry(i: nat)
    | BadSafeSequence
    | BadSafeSequenceEntry(k: nat)

  /** `body.name`, with `undefined` written JNull: every check of the validators treats a
      missing field and an explicit null alike. A field exists only on an object; on an
      array or a scalar it is undefined. */
  function Field(body: Json, name: string): Json {
    if body.JObject? && name in body.fields then body.fields[name] else JNull
  }

  /** `Number.isInteger` on a JSON number. */
  predicate IsInteger(x: real) {
    x.Floor as real == x
  }

  /** `typeof v === 'object'` for a value that is not null: objects and arrays. */
  predicate IsObjectLike(v: Json) {
    v.JObject? || v.JArray?
  }

  /** An integer between 1 and max, as the dimension checks demand. */
  predicate IsDimension(v: Json, max: nat) {
    v.JNumber? && IsInteger(v.n) && 1.0 <= v.n <= max as real
  }

  /** `Array.isArray(v) && v.length === n`. */
  predicate IsArrayOfLength(v: Json, n: nat) {
    v.JArray? && |v.items| == n
  }

  /** The per-entry checks of the validators. */
  datatype EntryRule =
    | NonNegativeInteger   // number, integer, >= 0
    | NonNegativeNumber    // number, >= 0
    | Boolean              // boolean
    | IndexBelow(n: real)  // number, 0 <= v < n

  predicate Satisfies(v: Json, rule: EntryRule) {
    match rule
    case NonNegativeInteger => v.JNumber? && IsInteger(v.n) && v.n >= 0.0
    case NonNegativeNumber => v.JNumber? && v.n >= 0.0
    case Boolean => v.JBool?
    case IndexBelow(n) => v.JNumber? && 0.0 <= v.n < n
  }

  /** The entry loop `for (j = from; j < n; j++) if (!ok(xs[j])) return error(j)`: the
      first violating index, if any. */
  function FirstViolation(xs: seq<Json>, rule: EntryRule, from: nat, n: nat): (r: Option<nat>)
    requires n <= |xs|
    ensures r.Some? ==> from <= r.value < n && !Satisfies(xs[r.value], rule)
    ensures r.Some? ==> forall k :: from <= k < r.value ==> Satisfies(xs[k], rule)
    ensures r.None? <==> forall k :: from <= k < n ==> Satisfies(xs[k], rule)
    decreases n - from
  {
    if from >= n then None
    else if !Satisfies(xs[from], rule) then Some(from)
    else FirstViolation(xs, rule, from + 1, n)
  }

  /** An array of exactly n entries, each satisfying the rule. */
  predicate ArrayOf(v: Json, n: nat, rule: EntryRule) {
    IsArrayOfLength(v, n) && forall k :: 0 <= k < n ==> Satisfies(v.items[k], rule)
  }

  /** rows x cols non-negative integers. */
  predicate IntegerMatrix(v: Json, rows: nat, cols: nat) {
    IsArrayOfLength(v, rows) && forall i :: 0 <= i < rows ==> ArrayOf(v.items[i], cols, NonNegativeInteger)
  }

  /** Entry j of row a is a number no larger than entry j of row m. */
  predicate CellAtMost(a: Json, m: Json, j: nat) {
    && a.JArray? && m.JArray? && j < |a.items| && j < |m.items|
    && a.items[j].JNumber? && m.items[j].JNumber? && a.items[j].n <= m.items[j].n
  }

  /** The allocation loop: a bad row, else the first bad entry of the first row that has one. */
  function CheckAllocation(rows: seq<Json>, from: nat, np: nat, nr: nat): (r: Option<RequestError>)
    requires np <= |rows|
    ensures r.None? <==> forall i :: from <= i < np ==> ArrayOf(rows[i], nr, NonNegativeInteger)
    ensures r.Some? ==> r.value.BadAllocationRow? || r.value.BadAllocationEntry?
    decreases np - from
  {
    if from >= np then None
    else if !IsArrayOfLength(rows[from], nr) then Some(BadAllocationRow(from))
    else match FirstViolation(rows[from].items, NonNegativeInteger, 0, nr)
      case Some(j) => Some(BadAllocationEntry(from, j))
      case None => CheckAllocation(rows, from + 1, np, nr)
  }

  /** The entries of one max_need row: each must be a non-negative integer and at least
      the allocation in the same cell, checked in that order column by column. */
  function CheckMaxRow(alloc: seq<Json>, max: seq<Json>, i: nat, from: nat, nr: nat): (r: Option<RequestError>)
    requires nr <= |alloc| && nr <= |max|
    requires forall j :: 0 <= j < nr ==> alloc[j].JNumber?
    ensures r.None? <==> forall j :: from <= j < nr ==>
              Satisfies(max[j], NonNegativeInteger) && CellAtMost(JArray(alloc), JArray(max), j)
    ensures r.Some? ==> r.value.BadMaxNeedEntry? || r.value.AllocationExceedsMax?
    decreases nr - from
  {
    if from >= nr then None
    else if !Satisfies(max[from], NonNegativeInteger) then Some(BadMaxNeedEntry(i, from))
    else if alloc[from].n > max[from].n then Some(AllocationExceedsMax(i, from))
    else CheckMaxRow(alloc, max, i, from + 1, nr)
  }

  /** Allocation never above the declared maximum, cell by cell. */
  predicate Bounded(alloc: seq<Json>, max: seq<Json>, np: nat, nr: nat)
    requires np <= |alloc| && np <= |max|
  {
    forall i, j :: 0 <= i < np && 0 <= j < nr ==> CellAtMost(alloc[i], max[i], j)
  }

  /** The max_need loop over rows. */
  function CheckMaxNeed(alloc: seq<Json>, max: seq<Json>, from: nat, np: nat, nr: nat): (r: Option<RequestError>)
    requires np <= |alloc| && np <= |max|
    requires forall i :: 0 <= i < np ==> ArrayOf(alloc[i], nr, NonNegativeInteger)
    ensures r.None? <==>
              forall i :: from <= i < np ==>
                ArrayOf(max[i], nr, NonNegativeInteger) && forall j :: 0 <= j < nr ==> CellAtMost(alloc[i], max[i], j)
    ensures r.Some? ==> r.value.BadMaxNeedRow? || r.value.BadMaxNeedEntry? || r.value.AllocationExceedsMax?
    decreases np - from
  {
    if from >= np then None
    else if !IsArrayOfLength(max[from], nr) then Some(BadMaxNeedRow(from))
    else
      assert ArrayOf(alloc[from], nr, NonNegativeInteger);
      match CheckMaxRow(alloc[from].items, max[from].items, from, 0, nr)
      case Some(e) => Some(e)
      case None => CheckMaxNeed(alloc, max, from + 1, np, nr)
  }

  /** The value of a validated dimension. */
  function Dimension(v: Json, max: nat): (d: nat)
    requires IsDimension(v, max)
    ensures 1 <= d <= max && d as real == v.n
  {
    v.n.Floor
  }

  /** `validateDetectRequest`. */
  function ValidateDetect(body: Json): (err: Option<RequestError>)
    ensures err.None? ==> IsObjectLike(body) && IsDimension(Field(body, "num_processes"), MaxProcesses)
                          && IsDimension(Field(body, "num_resources"), MaxResources)
  {
    if !IsObjectLike(body) then Some(BodyNotObject)
    else if !IsDimension(Field(body, "num_processes"), MaxProcesses) then Some(BadNumProcesses)
    else if !IsDimension(Field(body, "num_resources"), MaxResources) then Some(BadNumResources)
    else
      var np := Dimension(Field(body, "num_processes"), MaxProcesses);
      var nr := Dimension(Field(body, "num_resources"), MaxResources);
      var available := Field(body, "available");
      var allocation := Field(body, "allocation");
      var maxNeed := Field(body, "max_need");
      if !IsArrayOfLength(available, nr) then Some(BadAvailable)
      else if FirstViolation(available.items, NonNegativeInteger, 0, nr).Some? then
        Some(BadAvailableEntry(FirstViolation(available.items, NonNegativeInteger, 0, nr).value))
      else if !IsArrayOfLength(allocation, np) then Some(BadAllocation)
      else if CheckAllocation(allocation.items, 0, np, nr).Some? then
        CheckAllocation(allocation.items, 0, np, nr)
      else if !IsArrayOfLength(maxNeed, np) then Some(BadMaxNeed)
      else CheckMaxNeed(allocation.items, maxNeed.items, 0, np, nr)
  }

  /** What an acceptable detect body is: an object whose dimensions are integers in
      1..10, whose available vector and two matrices have those dimensions and hold
      non-negative integers, and whose allocation is nowhere above max_need. */
  predicate WellFormedDetect(body: Json) {
    && body.JObject?
    && IsDimension(Field(body, "num_processes"), MaxProcesses)
    && IsDimension(Field(body, "num_resources"), MaxResources)
    && var np := Dimension(Field(body, "num_processes"), MaxProcesses);
       var nr := Dimension(Field(body, "num_resources"), MaxResources);
       && ArrayOf(Field(body, "available"), nr, NonNegativeInteger)
       && IntegerMatrix(Field(body, "allocation"), np, nr)
       && IntegerMatrix(Field(body, "max_need"), np, nr)
       && Bounded(Field(body, "allocation").items, Field(body, "max_need").items, np, nr)
  }

  /** The detect validator accepts exactly the well-formed bodies. */
  lemma ValidateDetectAccepts(body: Json)
    ensures ValidateDetect(body).None? <==> WellFormedDetect(body)
  {
    if IsObjectLike(body) && IsDimension(Field(body, "num_processes"), MaxProcesses)
       && IsDimension(Field(body, "num_resources"), MaxResources) {
      var np := Dimension(Field(body, "num_processes"), MaxProcesses);
      var nr := Dimension(Field(body, "num_resources"), MaxResources);
      var allocation := Field(body, "allocation");
      var maxNeed := Field(body, "max_need");
      if IntegerMatrix(allocation, np, nr) && IsArrayOfLength(maxNeed, np)
         && CheckMaxNeed(allocation.items, maxNeed.items, 0, np, nr).None? {
        assert IntegerMatrix(maxNeed, np, nr);
      }
    }
  }

  /** An available entry the validator reports really is bad, and every earlier one is fine. */
  lemma ValidateDetectPinpoints(body: Json, j: nat)
    requires ValidateDetect(body) == Some(BadAvailableEntry(j))
    ensures IsObjectLike(body)
    ensures var available := Field(body, "available");
            && available.JArray? && j < |available.items|
            && !Satisfies(available.items[j], NonNegativeInteger)
            && forall k :: 0 <= k < j ==> Satisfies(available.items[k], NonNegativeInteger)
  {
    var nr := Dimension(Field(body, "num_resources"), MaxResources);
    assert FirstViolation(Field(body, "available").items, NonNegativeInteger, 0, nr) == Some(j);
  }

  function ToInt(v: Json): int
    requires v.JNumber?
  {
    v.n.Floor
  }

  function IntRow(v: Json, n: nat): (row: seq<int>)
    requires v.JArray? && n <= |v.items| && forall k :: 0 <= k < n ==> v.items[k].JNumber?
    ensures |row| == n
  {
    seq(n, k requires 0 <= k < n => ToInt(v.items[k]))
  }

  /** The engine state a well-formed detect body stands for. */
  function ToState(body: Json): (s: State)
    requires WellFormedDetect(body)
    ensures Shaped(s)
    ensures s.numProcesses as real == Field(body, "num_processes").n
    ensures s.numResources as real == Field(body, "num_resources").n
    ensures forall j :: 0 <= j < s.numResources ==>
              s.available[j] as real == Field(body, "available").items[j].n
    ensures forall i, j :: 0 <= i < s.numProcesses && 0 <= j < s.numResources ==>
              s.allocation[i][j] as real == Field(body, "allocation").items[i].items[j].n
              && s.maxNeed[i][j] as real == Field(body, "max_need").items[i].items[j].n
  {
    var np := Dimension(Field(body, "num_processes"), MaxProcesses);
    var nr := Dimension(Field(body, "num_resources"), MaxResources);
    var allocation := Field(body, "allocation").items;
    var maxNeed := Field(body, "max_need").items;
    State(np, nr,
          IntRow(Field(body, "available"), nr),
          seq(np, i requires 0 <= i < np => IntRow(allocation[i], nr)),
          seq(np, i requires 0 <= i < np => IntRow(maxNeed[i], nr)))
  }

  /** An accepted body stands for a valid state: dimensions in 1..10, non-negative
      entries, allocation nowhere above the maximum. */
  lemma ToStateValid(body: Json)
    requires WellFormedDetect(body)
    ensures Valid(ToState(body))
  {
    var s := ToState(body);
    var alloc := Field(body, "allocation");
    var max := Field(body, "max_need");
    forall i, j | 0 <= i < s.numProcesses && 0 <= j < s.numResources
      ensures 0 <= s.allocation[i][j] <= s.maxNeed[i][j]
    {
      assert ArrayOf(alloc.items[i], s.numResources, NonNegativeInteger);
      assert ArrayOf(max.items[i], s.numResources, NonNegativeInteger);
      assert Satisfies(alloc.items[i].items[j], NonNegativeInteger);
      assert Satisfies(max.items[i].items[j], NonNegativeInteger);
      assert CellAtMost(alloc.items[i], max.items[i], j);
    }
    forall j | 0 <= j < s.numResources
      ensures s.available[j] >= 0
    {
      assert Satisfies(Field(body, "available").items[j], NonNegativeInteger);
    }
  }

  /** `validateResolveRequest`: the detect checks, then an optional victim index that
      must be a number in [0, num_processes); it need not be an integer. */
  function ValidateResolve(body: Json): (err: Option<RequestError>)
    ensures err.None? ==> ValidateDetect(body).None?
    ensures ValidateDetect(body).Some? ==> err.Some?
  {
    if ValidateDetect(body).Some? then ValidateDetect(body)
    else
      ValidateDetectAccepts(body);
      var victim := Field(body, "victim_process_index");
      if victim.JNull? then None
      else if !Satisfies(victim, IndexBelow(Field(body, "num_processes").n)) then Some(BadVictim)
      else None
  }

  predicate WellFormedResolve(body: Json) {
    && WellFormedDetect(body)
    && var victim := Field(body, "victim_process_index");
       victim.JNull? || Satisfies(victim, IndexBelow(Field(body, "num_processes").n))
  }

  /** The resolve validator accepts exactly the well-formed bodies. */
  lemma ValidateResolveAccepts(body: Json)
    ensures ValidateResolve(body).None? <==> WellFormedResolve(body)
  {
    ValidateDetectAccepts(body);
  }

  /** The victim the engine is asked for: none when the field is absent or null. */
  function RequestedVictim(body: Json): (v: Option<real>)
    requires WellFormedResolve(body)
    ensures v.Some? ==> 0.0 <= v.value < ToState(body).numProcesses as real
  {
    var victim := Field(body, "victim_process_index");
    if victim.JNull? then None else Some(victim.n)
  }

  /** The validator lets a fractional victim index through, but the engine never finds it
      among the deadlocked indices and refuses it. */
  lemma FractionalVictimRefused(s: State, x: real)
    requires Shaped(s) && !IsInteger(x)
    ensures Resolve(s, Some(x)).Err?
  {
    var d := Detect(s);
    assert forall k :: 0 <= k < |d.deadlocked| ==> (d.deadlocked[k] as real).Floor == d.deadlocked[k];
  }

  /** `validateStepRequest`: the detect checks, then an optional snapshot: work holds
      nr non-negative numbers, finish np booleans, safe_sequence numbers in [0, np). */
  function ValidateStep(body: Json): (err: Option<RequestError>)
    ensures err.None? ==> ValidateDetect(body).None?
    ensures ValidateDetect(body).Some? ==> err.Some?
  {
    if ValidateDetect(body).Some? then ValidateDetect(body)
    else
      ValidateDetectAccepts(body);
      var np := Dimension(Field(body, "num_processes"), MaxProcesses);
      var nr := Dimension(Field(body, "num_resources"), MaxResources);
      var snapshot := Field(body, "step_state");
      var work := Field(snapshot, "work");
      var finish := Field(snapshot, "finish");
      var order := Field(snapshot, "safe_sequence");
      if snapshot.JNull? then None
      else if !IsObjectLike(snapshot) then Some(BadStepState)
      else if !IsArrayOfLength(work, nr) then Some(BadWork)
      else if FirstViolation(work.items, NonNegativeNumber, 0, nr).Some? then
        Some(BadWorkEntry(FirstViolation(work.items, NonNegativeNumber, 0, nr).value))
      else if !IsArrayOfLength(finish, np) then Some(BadFinish)
      else if FirstViolation(finish.items, Boolean, 0, np).Some? then
        Some(BadFinishEntry(FirstViolation(finish.items, Boolean, 0, np).value))
      else if !order.JArray? then Some(BadSafeSequence)
      else if FirstViolation(order.items, IndexBelow(np as real), 0, |order.items|).Some? then
        Some(BadSafeSequenceEntry(FirstViolation(order.items, IndexBelow(np as real), 0, |order.items|).value))
      else None
  }

  /** An acceptable step body: a well-formed state and either no snapshot or one whose
      parts have the state's dimensions and the right kinds of entries. */
  predicate WellFormedStep(body: Json) {
    && WellFormedDetect(body)
    && var np := Dimension(Field(body, "num_processes"), MaxProcesses);
       var nr := Dimension(Field(body, "num_resources"), MaxResources);
       var snapshot := Field(body, "step_state");
       var order := Field(snapshot, "safe_sequence");
       || snapshot.JNull?
       || (&& IsObjectLike(snapshot)
           && ArrayOf(Field(snapshot, "work"), nr, NonNegativeNumber)
           && ArrayOf(Field(snapshot, "finish"), np, Boolean)
           && order.JArray? && ArrayOf(order, |order.items|, IndexBelow(np as real)))
  }

  /** The step validator accepts exactly the well-formed bodies. */
  lemma ValidateStepAccepts(body: Json)
    ensures ValidateStep(body).None? <==> WellFormedStep(body)
  {
    ValidateDetectAccepts(body);
  }

  /** Work amounts and sequence entries that are whole numbers, as the engine's integer
      snapshot needs. */
  predicate IntegralSnapshot(body: Json) {
    var snapshot := Field(body, "step_state");
    var work := Field(snapshot, "work");
    var order := Field(snapshot, "safe_sequence");
    && (work.JArray? ==> forall j :: 0 <= j < |work.items| ==> work.items[j].JNumber? && IsInteger(work.items[j].n))
    && (order.JArray? ==> forall k :: 0 <= k < |order.items| ==> order.items[k].JNumber? && IsInteger(order.items[k].n))
  }

  /** The snapshot a well-formed step body carries, if any. */
  function Snapshot(body: Json): (st: Option<StepState>)
    requires WellFormedStep(body) && IntegralSnapshot(body)
    ensures st.Some? ==> Resumable(ToState(body), st.value)
    ensures st.Some? ==> Below(st.value.safeSequence, ToState(body).numProcesses)
    ensures st.None? <==> Field(body, "step_state").JNull?
  {
    var np := Dimension(Field(body, "num_processes"), MaxProcesses);
    var nr := Dimension(Field(body, "num_resources"), MaxResources);
    var snapshot := Field(body, "step_state");
    if snapshot.JNull? then None
    else
      var finish := Field(snapshot, "finish").items;
      var order := Field(snapshot, "safe_sequence").items;
      Some(StepState(
        IntRow(Field(snapshot, "work"), nr),
        seq(np, i requires 0 <= i < np => finish[i].b),
        seq(|order|, k requires 0 <= k < |order| => order[k].n.Floor)))
  }
}
