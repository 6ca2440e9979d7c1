/** Modules of courses and lessons of modules, kept in order under one unique constraint each
    (app/modules/learn/service.py), for one tenant. Rows are never deleted, so ids are
    positions; a module's group is its course, a lesson's group its module. */
module CourseOrder {
  import opened Options
  import opened Reorder

  datatype Store = Store(courses: nat, modules: seq<Row>, lessons: seq<Row>)

  const EMPTY := Store(0, [], [])

  datatype CourseRequest = CourseRequest(modules: seq<OrderRequest>, lessons: seq<OrderRequest>)

  /** The order in which the database takes the rows in each of the two flushes. */
  datatype Flushes = Flushes(modules1: seq<nat>, lessons1: seq<nat>, modules2: seq<nat>, lessons2: seq<nat>)

  datatype Error =
    | CourseNotFound | ModuleNotFound | LessonNotFound | DuplicateModule | DuplicateLesson
    | OrderConflict | NoFlushOrder
  datatype Outcome = Done(id: nat) | Failed(error: Error)

  function TableOf(rows: seq<Row>): Table {
    map i: nat | i < |rows| :: rows[i]
  }

  function RowsOf(t: Table, n: nat): (rows: seq<Row>)
    requires forall i: nat | i < n :: i in t
    ensures |rows| == n && forall i | 0 <= i < n :: rows[i] == t[i]
  {
    seq(n, i requires 0 <= i < n => t[i])
  }

  /** A new row, or none when the constraint refuses it. */
  function Insert(rows: seq<Row>, group: nat, order: Option<nat>): Option<seq<Row>> {
    var row := Row(group, if order.Some? then order.value else NextIndex(rows, group));
    if row in rows then None else Some(rows + [row])
  }

  function Move(rows: seq<Row>, i: nat, order: nat): Option<seq<Row>>
    requires i < |rows|
  {
    var row := rows[i].(order := order);
    if exists j | 0 <= j < |rows| :: j != i && rows[j] == row then None else Some(rows[i := row])
  }

  // Requests

  function CreateModule(s: Store, course: nat, order: Option<nat>): (Store, Outcome) {
    if course >= s.courses then (s, Failed(CourseNotFound))
    else
      match Insert(s.modules, course, order)
      case None => (s, Failed(OrderConflict))
      case Some(rows) => (s.(modules := rows), Done(|s.modules|))
  }

  function CreateLesson(s: Store, module_: nat, order: Option<nat>): (Store, Outcome) {
    if module_ >= |s.modules| then (s, Failed(ModuleNotFound))
    else
      match Insert(s.lessons, module_, order)
      case None => (s, Failed(OrderConflict))
      case Some(rows) => (s.(lessons := rows), Done(|s.lessons|))
  }

  function MoveModule(s: Store, module_: nat, order: nat): (Store, Outcome) {
    if module_ >= |s.modules| then (s, Failed(ModuleNotFound))
    else
      match Move(s.modules, module_, order)
      case None => (s, Failed(OrderConflict))
      case Some(rows) => (s.(modules := rows), Done(module_))
  }

  function MoveLesson(s: Store, lesson: nat, order: nat): (Store, Outcome) {
    if lesson >= |s.lessons| then (s, Failed(LessonNotFound))
    else
      match Move(s.lessons, lesson, order)
      case None => (s, Failed(OrderConflict))
      case Some(rows) => (s.(lessons := rows), Done(lesson))
  }

  predicate InCourse(s: Store, module_: nat, course: nat) {
    module_ < |s.modules| && s.modules[module_].group == course
  }

  predicate LessonInCourse(s: Store, lesson: nat, course: nat) {
    lesson < |s.lessons| && InCourse(s, s.lessons[lesson].group, course)
  }

  predicate ValidFlushes(flushes: Flushes, request: CourseRequest) {
    && FlushOrder(flushes.modules1, IdsOf(request.modules)) && FlushOrder(flushes.modules2, IdsOf(request.modules))
    && FlushOrder(flushes.lessons1, IdsOf(request.lessons)) && FlushOrder(flushes.lessons2, IdsOf(request.lessons))
  }

  /** One table after both flushes. */
  function Reordered(rows: seq<Row>, request: seq<OrderRequest>, first: seq<nat>, second: seq<nat>): Option<seq<Row>>
    requires forall x | x in IdsOf(request) :: x < |rows|
    requires FlushOrder(first, IdsOf(request)) && FlushOrder(second, IdsOf(request))
  {
    match TwoPhase(TableOf(rows), IdsOf(request), TargetOf(request), first, second)
    case None => None
    case Some(t) => Some(RowsOf(t, |rows|))
  }

  function ReorderCourse(s: Store, course: nat, request: CourseRequest, flushes: Flushes): (Store, Outcome) {
    var moduleIds, lessonIds := IdsOf(request.modules), IdsOf(request.lessons);
    if course >= s.courses then (s, Failed(CourseNotFound))
    else if !Distinct(moduleIds) then (s, Failed(DuplicateModule))
    else if !Distinct(lessonIds) then (s, Failed(DuplicateLesson))
    else if exists i | 0 <= i < |moduleIds| :: !InCourse(s, moduleIds[i], course) then (s, Failed(ModuleNotFound))
    else if exists i | 0 <= i < |lessonIds| :: !LessonInCourse(s, lessonIds[i], course) then (s, Failed(LessonNotFound))
    else if !ValidFlushes(flushes, request) then (s, Failed(NoFlushOrder))
    else
      var modules := Reordered(s.modules, request.modules, flushes.modules1, flushes.modules2);
      var lessons := Reordered(s.lessons, request.lessons, flushes.lessons1, flushes.lessons2);
      if modules.None? || lessons.None? then (s, Failed(OrderConflict))
      else (s.(modules := modules.value, lessons := lessons.value), Done(course))
  }

  datatype Request =
    | NewCourse
    | NewModule(course: nat, order_: Option<nat>)
    | NewLesson(module_: nat, order_: Option<nat>)
    | PlaceModule(module_: nat, order: nat)
    | PlaceLesson(lesson: nat, order: nat)
    | Reordering(course: nat, request: CourseRequest, flushes: Flushes)

  function Step(s: Store, request: Request): (Store, Outcome) {
    match request
    case NewCourse => (s.(courses := s.courses + 1), Done(s.courses))
    case NewModule(course, order) => CreateModule(s, course, order)
    case NewLesson(module_, order) => CreateLesson(s, module_, order)
    case PlaceModule(module_, order) => MoveModule(s, module_, order)
    case PlaceLesson(lesson, order) => MoveLesson(s, lesson, order)
    case Reordering(course, orders, flushes) => ReorderCourse(s, course, orders, flushes)
  }

  function Run(s: Store, requests: seq<Request>): Store
    decreases |requests|
  {
    if requests == [] then s else Run(Step(s, requests[0]).0, requests[1..])
  }

  // What each request does

  /** A refused request changes nothing. */
  lemma RefusedChangesNothing(s: Store, request: Request)
    requires Step(s, request).1.Failed?
    ensures Step(s, request).0 == s
  {
  }

  ghost predicate Free(rows: seq<Row>, group: nat, order: nat) {
    forall i | 0 <= i < |rows| && rows[i].group == group :: rows[i].order != order
  }

  ghost predicate IndexChosen(rows: seq<Row>, group: nat, asked: Option<nat>, index: nat) {
    match asked
    case Some(given) => index == given
    case None =>
      && (forall i | 0 <= i < |rows| && rows[i].group == group :: rows[i].order < index)
      && (index == 1 || exists i :: 0 <= i < |rows| && rows[i].group == group && rows[i].order == index - 1)
  }

  lemma InsertsAsAsked(rows: seq<Row>, group: nat, order: Option<nat>)
    ensures Insert(rows, group, order).Some? <==> order.None? || Free(rows, group, order.value)
    ensures Insert(rows, group, order).Some? ==>
              var after := Insert(rows, group, order).value;
              && |after| == |rows| + 1 && after[..|rows|] == rows && after[|rows|].group == group
              && IndexChosen(rows, group, order, after[|rows|].order)
  {
    var index := if order.Some? then order.value else NextIndex(rows, group);
    if Row(group, index) in rows {
      var i :| 0 <= i < |rows| && rows[i] == Row(group, index);
    }
  }

  lemma MovesAsAsked(rows: seq<Row>, i: nat, order: nat)
    requires i < |rows|
    ensures Move(rows, i, order).Some? <==>
            forall j | 0 <= j < |rows| && j != i && rows[j].group == rows[i].group :: rows[j].order != order
    ensures Move(rows, i, order).Some? ==> Move(rows, i, order).value == rows[i := Row(rows[i].group, order)]
  {
  }

  /** A module goes to its course, and a lesson to its module, at the index asked for when it is
      free there, or after the largest; moving keeps it there. */
  lemma PlacesAsAsked(s: Store, group: nat, order: Option<nat>, to: nat)
    ensures Step(s, NewCourse) == (s.(courses := s.courses + 1), Done(s.courses))
    ensures var (t, outcome) := Step(s, NewModule(group, order));
      && (outcome.Done? <==> group < s.courses && (order.None? || Free(s.modules, group, order.value)))
      && (outcome.Done? ==> Insert(s.modules, group, order) == Some(t.modules) && t == s.(modules := t.modules)
                            && outcome.id == |s.modules|)
      && (outcome.Failed? ==> outcome.error == if group < s.courses then OrderConflict else CourseNotFound)
    ensures var (t, outcome) := Step(s, NewLesson(group, order));
      && (outcome.Done? <==> group < |s.modules| && (order.None? || Free(s.lessons, group, order.value)))
      && (outcome.Done? ==> Insert(s.lessons, group, order) == Some(t.lessons) && t == s.(lessons := t.lessons)
                            && outcome.id == |s.lessons|)
      && (outcome.Failed? ==> outcome.error == if group < |s.modules| then OrderConflict else ModuleNotFound)
    ensures var (t, outcome) := Step(s, PlaceModule(group, to));
      && (outcome.Done? <==> group < |s.modules| && Move(s.modules, group, to).Some?)
      && (outcome.Done? ==>
            outcome.id == group && t == s.(modules := s.modules[group := Row(s.modules[group].group, to)]))
      && (outcome.Failed? ==> outcome.error == if group < |s.modules| then OrderConflict else ModuleNotFound)
    ensures var (t, outcome) := Step(s, PlaceLesson(group, to));
      && (outcome.Done? <==> group < |s.lessons| && Move(s.lessons, group, to).Some?)
      && (outcome.Done? ==>
            outcome.id == group && t == s.(lessons := s.lessons[group := Row(s.lessons[group].group, to)]))
      && (outcome.Failed? ==> outcome.error == if group < |s.lessons| then OrderConflict else LessonNotFound)
  {
    InsertsAsAsked(s.modules, group, order);
    InsertsAsAsked(s.lessons, group, order);
    if group < |s.modules| { MovesAsAsked(s.modules, group, to); }
    if group < |s.lessons| { MovesAsAsked(s.lessons, group, to); }
  }

  ghost predicate Repeats(orders: seq<OrderRequest>) {
    exists i, j :: 0 <= i < j < |orders| && orders[i].row == orders[j].row
  }

  lemma RepeatsIff(orders: seq<OrderRequest>)
    ensures Repeats(orders) <==> !Distinct(IdsOf(orders))
  {
    var ids := IdsOf(orders);
    assert forall i | 0 <= i < |orders| :: ids[i] == orders[i].row;
  }

  /** A course reorder is refused for a missing course, then for a module listed twice, then for a
      lesson listed twice, then for a module of another course, then for a lesson of one;
      otherwise the flushes decide. */
  lemma ReorderChecks(s: Store, course: nat, request: CourseRequest, flushes: Flushes)
    ensures var outcome := Step(s, Reordering(course, request, flushes)).1;
      var foreignModule := exists i :: 0 <= i < |request.modules| && !(request.modules[i].row < |s.modules|
                             && s.modules[request.modules[i].row].group == course);
      var foreignLesson := exists i :: 0 <= i < |request.lessons| && !(request.lessons[i].row < |s.lessons|
                             && s.lessons[request.lessons[i].row].group < |s.modules|
                             && s.modules[s.lessons[request.lessons[i].row].group].group == course);
      && (outcome == Failed(CourseNotFound) <==> course >= s.courses)
      && (outcome == Failed(DuplicateModule) <==> course < s.courses && Repeats(request.modules))
      && (outcome == Failed(DuplicateLesson) <==>
            course < s.courses && !Repeats(request.modules) && Repeats(request.lessons))
      && (outcome == Failed(ModuleNotFound) <==>
            course < s.courses && !Repeats(request.modules) && !Repeats(request.lessons) && foreignModule)
      && (outcome == Failed(LessonNotFound) <==>
            course < s.courses && !Repeats(request.modules) && !Repeats(request.lessons) && !foreignModule
                && foreignLesson)
      && (outcome.Failed? ==> outcome.error in {CourseNotFound, DuplicateModule, DuplicateLesson, ModuleNotFound,
                                                LessonNotFound, NoFlushOrder, OrderConflict})
  {
    RepeatsIff(request.modules);
    RepeatsIff(request.lessons);
    assert forall i | 0 <= i < |request.modules| :: IdsOf(request.modules)[i] == request.modules[i].row;
    assert forall i | 0 <= i < |request.lessons| :: IdsOf(request.lessons)[i] == request.lessons[i].row;
  }

  // The constraint holds in every reachable state

  ghost predicate DistinctRows(rows: seq<Row>) {
    forall i, j | 0 <= i < j < |rows| :: rows[i] != rows[j]
  }

  ghost predicate Inv(s: Store) {
    && DistinctRows(s.modules) && DistinctRows(s.lessons)
    && (forall i | 0 <= i < |s.modules| :: s.modules[i].group < s.courses)
    && (forall i | 0 <= i < |s.lessons| :: s.lessons[i].group < |s.modules|)
  }

  lemma UniqueTable(rows: seq<Row>)
    requires DistinctRows(rows)
    ensures Unique(TableOf(rows))
  {
  }

  /** Two flushes keep the groups and the constraint. */
  lemma ReorderedKeeps(rows: seq<Row>, request: seq<OrderRequest>, first: seq<nat>, second: seq<nat>)
    requires DistinctRows(rows) && forall x | x in IdsOf(request) :: x < |rows|
    requires FlushOrder(first, IdsOf(request)) && FlushOrder(second, IdsOf(request))
    requires Reordered(rows, request, first, second).Some?
    ensures var after := Reordered(rows, request, first, second).value;
      DistinctRows(after) && SameGroups(rows, after)
  {
    UniqueTable(rows);
    TwoPhaseKeeps(TableOf(rows), IdsOf(request), TargetOf(request), first, second);
  }

  ghost predicate SameGroups(rows: seq<Row>, after: seq<Row>) {
    |after| == |rows| && forall i | 0 <= i < |rows| :: after[i].group == rows[i].group
  }

  lemma NewOrdersPreserve(s: Store, modules: seq<Row>, lessons: seq<Row>)
    requires Inv(s) && DistinctRows(modules) && DistinctRows(lessons)
    requires SameGroups(s.modules, modules) && SameGroups(s.lessons, lessons)
    ensures Inv(s.(modules := modules, lessons := lessons))
  {
  }

  lemma ReorderPreserves(s: Store, course: nat, request: CourseRequest, flushes: Flushes)
    requires Inv(s)
    ensures Inv(ReorderCourse(s, course, request, flushes).0)
  {
    var (t, outcome) := ReorderCourse(s, course, request, flushes);
    if outcome.Done? {
      assert forall i | 0 <= i < |IdsOf(request.modules)| :: InCourse(s, IdsOf(request.modules)[i], course);
      assert forall i | 0 <= i < |IdsOf(request.lessons)| :: LessonInCourse(s, IdsOf(request.lessons)[i], course);
      ReorderedKeeps(s.modules, request.modules, flushes.modules1, flushes.modules2);
      ReorderedKeeps(s.lessons, request.lessons, flushes.lessons1, flushes.lessons2);
      NewOrdersPreserve(s, t.modules, t.lessons);
    }
  }

  lemma RowsStayDistinct(rows: seq<Row>, i: nat, row: Row)
    requires DistinctRows(rows)
    requires forall j | 0 <= j < |rows| :: j != i ==> rows[j] != row
    ensures i < |rows| ==> DistinctRows(rows[i := row])
    ensures i >= |rows| ==> DistinctRows(rows + [row])
  {
  }

  lemma InsertKeeps(rows: seq<Row>, group: nat, order: Option<nat>)
    requires DistinctRows(rows) && Insert(rows, group, order).Some?
    ensures DistinctRows(Insert(rows, group, order).value)
  {
    RowsStayDistinct(rows, |rows|, Insert(rows, group, order).value[|rows|]);
  }

  lemma MoveKeeps(rows: seq<Row>, i: nat, order: nat)
    requires DistinctRows(rows) && i < |rows| && Move(rows, i, order).Some?
    ensures DistinctRows(Move(rows, i, order).value)
  {
    RowsStayDistinct(rows, i, rows[i].(order := order));
  }

  lemma StepPreserves(s: Store, request: Request)
    requires Inv(s)
    ensures Inv(Step(s, request).0)
  {
    match request
    case NewCourse =>
    case NewModule(course, order) =>
      if Insert(s.modules, course, order).Some? { InsertKeeps(s.modules, course, order); }
    case NewLesson(module_, order) =>
      if Insert(s.lessons, module_, order).Some? { InsertKeeps(s.lessons, module_, order); }
    case PlaceModule(module_, order) =>
      if module_ < |s.modules| && Move(s.modules, module_, order).Some? { MoveKeeps(s.modules, module_, order); }
    case PlaceLesson(lesson, order) =>
      if lesson < |s.lessons| && Move(s.lessons, lesson, order).Some? { MoveKeeps(s.lessons, lesson, order); }
    case Reordering(course, orders, flushes) => ReorderPreserves(s, course, orders, flushes);
  }

  lemma {:induction false} RunPreserves(s: Store, requests: seq<Request>)
    requires Inv(s)
    ensures Inv(Run(s, requests))
    decreases |requests|
  {
    if requests == [] {
    } else {
      StepPreserves(s, requests[0]);
      RunPreserves(Step(s, requests[0]).0, requests[1..]);
    }
  }

  /** In every reachable state indexes are distinct among the modules of a course and among
      the lessons of a module. */
  lemma IndexesStayDistinct(requests: seq<Request>, i: nat, j: nat)
    requires i < j
    ensures var s := Run(EMPTY, requests);
      && (j < |s.modules| && s.modules[i].group == s.modules[j].group ==> s.modules[i].order != s.modules[j].order)
      && (j < |s.lessons| && s.lessons[i].group == s.lessons[j].group ==> s.lessons[i].order != s.lessons[j].order)
  {
    RunPreserves(EMPTY, requests);
    var s := Run(EMPTY, requests);
    assert j < |s.modules| ==> s.modules[i] != s.modules[j];
    assert j < |s.lessons| ==> s.lessons[i] != s.lessons[j];
  }

  // Reordering a course

  /** Exactly the listed rows have moved, each to the index asked for. */
  ghost predicate MovedAsRequested(rows: seq<Row>, moved: seq<Row>, request: seq<OrderRequest>) {
    && |moved| == |rows|
    && (forall k: nat | k < |rows| && k !in IdsOf(request) :: moved[k] == rows[k])
    && (forall i | 0 <= i < |request| && request[i].row < |rows| ::
          moved[request[i].row] == rows[request[i].row].(order := request[i].orderIndex))
  }

  lemma AssignedRows(rows: seq<Row>, request: seq<OrderRequest>)
    requires Distinct(IdsOf(request))
    ensures MovedAsRequested(rows, RowsOf(Assigned(TableOf(rows), TargetOf(request)), |rows|), request)
  {
    forall i: nat | i < |request|
      ensures request[i].row in TargetOf(request) && TargetOf(request)[request[i].row] == request[i].orderIndex
    {
      TargetIsRequested(request, i);
    }
  }

  /** Everything listed exists, in this course, once. */
  ghost predicate Listed(s: Store, course: nat, request: CourseRequest) {
    && course < s.courses && Distinct(IdsOf(request.modules)) && Distinct(IdsOf(request.lessons))
    && (forall x | x in IdsOf(request.modules) :: x < |s.modules|)
        && (forall x | x in IdsOf(request.lessons) :: x < |s.lessons|)
    && (forall i | 0 <= i < |request.modules| :: InCourse(s, request.modules[i].row, course))
    && (forall i | 0 <= i < |request.lessons| :: LessonInCourse(s, request.lessons[i].row, course))
  }

  lemma OutcomeOfFlushes(s: Store, course: nat, request: CourseRequest, flushes: Flushes)
    requires Listed(s, course, request) && ValidFlushes(flushes, request)
    ensures var modules := Reordered(s.modules, request.modules, flushes.modules1, flushes.modules2);
      var lessons := Reordered(s.lessons, request.lessons, flushes.lessons1, flushes.lessons2);
      ReorderCourse(s, course, request, flushes) ==
      if modules.None? || lessons.None? then (s, Failed(OrderConflict))
      else (s.(modules := modules.value, lessons := lessons.value), Done(course))
  {
  }

  /** One table, in every order of the rows: as requested when the request is clear, refused
      when it is not. */
  lemma TableMovesIffClear(rows: seq<Row>, request: seq<OrderRequest>, first: seq<nat>, second: seq<nat>)
    requires DistinctRows(rows) && Distinct(IdsOf(request)) && forall x | x in IdsOf(request) :: x < |rows|
    requires FlushOrder(first, IdsOf(request)) && FlushOrder(second, IdsOf(request))
    requires BelowParking(TableOf(rows), request)
    ensures Reordered(rows, request, first, second).Some? <==> Clear(TableOf(rows), request)
    ensures Clear(TableOf(rows), request) ==>
            MovedAsRequested(rows, Reordered(rows, request, first, second).value, request)
  {
    UniqueTable(rows);
    SucceedsIffClear(TableOf(rows), request, first, second);
    AssignedRows(rows, request);
  }

  /** With the indexes of the course's modules and of their lessons, old and requested, up to
      100000, a reorder, in every order of the rows within the flushes, moves exactly the
      listed modules and lessons to the indexes asked for when the module indexes are distinct
      and clear of unlisted modules, and so are the lesson indexes of each module, although
      lessons of several modules are parked in one range; and is refused without a trace when
      they are not. */
  lemma CourseReorderWorksIff(s: Store, course: nat, request: CourseRequest, flushes: Flushes)
    requires Inv(s) && Listed(s, course, request) && ValidFlushes(flushes, request)
    requires BelowParking(TableOf(s.modules), request.modules) && BelowParking(TableOf(s.lessons), request.lessons)
    ensures var (t, outcome) := ReorderCourse(s, course, request, flushes);
      if Clear(TableOf(s.modules), request.modules) && Clear(TableOf(s.lessons), request.lessons) then
        && outcome == Done(course) && t.courses == s.courses
        && MovedAsRequested(s.modules, t.modules, request.modules)
        && MovedAsRequested(s.lessons, t.lessons, request.lessons)
      else
        (t, outcome) == (s, Failed(OrderConflict))
  {
    OutcomeOfFlushes(s, course, request, flushes);
    TableMovesIffClear(s.modules, request.modules, flushes.modules1, flushes.modules2);
    TableMovesIffClear(s.lessons, request.lessons, flushes.lessons1, flushes.lessons2);
  }

  /** A module or lesson created without an index is never refused. */
  lemma DefaultIndexIsFree(rows: seq<Row>, group: nat)
    ensures Insert(rows, group, None).Some?
  {
    assert forall i | 0 <= i < |rows| :: rows[i] != Row(group, NextIndex(rows, group));
  }

  // The service as it runs

  class Service {
    var courses: nat
    var modules: seq<Row>
    var lessons: seq<Row>

    constructor ()
      ensures State() == EMPTY
    {
      courses, modules, lessons := 0, [], [];
    }

    ghost function State(): Store
      reads this
    {
      Store(courses, modules, lessons)
    }

    method AddModule(course: nat, order: Option<nat>) returns (outcome: Outcome)
      modifies this`modules
      ensures (State(), outcome) == CreateModule(old(State()), course, order)
    {
      if course >= courses { return Failed(CourseNotFound); }
      var index: nat;
      match order {
        case Some(given) => index := given;
        case None => index := NextIndex(modules, course);
      }
      if Row(course, index) in modules { return Failed(OrderConflict); }
      modules := modules + [Row(course, index)];
      return Done(|modules| - 1);
    }

    method AddLesson(module_: nat, order: Option<nat>) returns (outcome: Outcome)
      modifies this`lessons
      ensures (State(), outcome) == CreateLesson(old(State()), module_, order)
    {
      if module_ >= |modules| { return Failed(ModuleNotFound); }
      var index: nat;
      match order {
        case Some(given) => index := given;
        case None => index := NextIndex(lessons, module_);
      }
      if Row(module_, index) in lessons { return Failed(OrderConflict); }
      lessons := lessons + [Row(module_, index)];
      return Done(|lessons| - 1);
    }

    /** `reorder_course`: checks, then park, flush, assign, flush on both tables; on a
        collision nothing is kept. */
    method Reorder(course: nat, request: CourseRequest, flushes: Flushes) returns (outcome: Outcome)
      modifies this`modules, this`lessons
      ensures (State(), outcome) == ReorderCourse(old(State()), course, request, flushes)
    {
      var moduleIds, lessonIds := IdsOf(request.modules), IdsOf(request.lessons);
      if course >= courses { return Failed(CourseNotFound); }
      if !Distinct(moduleIds) { return Failed(DuplicateModule); }
      if !Distinct(lessonIds) { return Failed(DuplicateLesson); }
      for k := 0 to |moduleIds|
        invariant forall j | 0 <= j < k :: InCourse(State(), moduleIds[j], course)
      {
        if moduleIds[k] >= |modules| || modules[moduleIds[k]].group != course { return Failed(ModuleNotFound); }
      }
      for k := 0 to |lessonIds|
        invariant forall j | 0 <= j < k :: LessonInCourse(State(), lessonIds[j], course)
      {
        if lessonIds[k] >= |lessons| { return Failed(LessonNotFound); }
        var module_ := lessons[lessonIds[k]].group;
        if module_ >= |modules| || modules[module_].group != course { return Failed(LessonNotFound); }
      }
      if !ValidFlushes(flushes, request) { return Failed(NoFlushOrder); }
      var modulesAfter := Rewritten(modules, request.modules, flushes.modules1, flushes.modules2);
      var lessonsAfter := Rewritten(lessons, request.lessons, flushes.lessons1, flushes.lessons2);
      if modulesAfter.None? || lessonsAfter.None? { return Failed(OrderConflict); }
      modules, lessons := modulesAfter.value, lessonsAfter.value;
      return Done(course);
    }
  }

  /** Both flushes of one table. */
  method Rewritten(rows: seq<Row>, request: seq<OrderRequest>, first: seq<nat>, second: seq<nat>)
      returns (after: Option<seq<Row>>)
    requires forall x | x in IdsOf(request) :: x < |rows|
    requires FlushOrder(first, IdsOf(request)) && FlushOrder(second, IdsOf(request))
    ensures after == Reordered(rows, request, first, second)
  {
    var parked := ParkAll(IdsOf(request));
    var half := Flush(TableOf(rows), parked, first);
    if half.None? { return None; }
    var target := AssignAll(request);
    var whole := Flush(half.value, target, second);
    if whole.None? { return None; }
    return Some(RowsOf(whole.value, |rows|));
  }
}
