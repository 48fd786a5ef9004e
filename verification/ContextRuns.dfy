/** Runs of operations on any number of SSL contexts: what getContext returns, compared with
    contexts that are built anew from the current settings on every call. */
module ContextRuns {
  import opened Bytes
  import opened Context

  datatype Op =
    | Construct(c: nat, flags: int, depth: nat)
    | Copy(c: nat, from: nat)
    | Assign(c: nat, from: nat)
    | Swap(c: nat, other: nat)
    | Set(c: nat, change: Change)
    | Get(c: nat)
    | Destroy(c: nat)

  /** The contexts that exist, by name, and the cells, in the order in which they were made. */
  datatype World = World(contexts: map<nat, Handle>, cells: seq<Option<Settings>>)
  datatype Handle = Handle(settings: Settings, cell: nat)

  const EMPTY := World(map[], [])

  predicate Allowed(names: set<nat>, op: Op) {
    match op
    case Construct(c, _, _) => c !in names
    case Copy(c, from) => c !in names && from in names
    case Assign(c, from) => c in names && from in names
    case Swap(c, other) => c in names && other in names
    case Set(c, _) => c in names
    case Get(c) => c in names
    case Destroy(c) => c in names
  }

  function NamesAfter(names: set<nat>, op: Op): set<nat> {
    match op
    case Construct(c, _, _) => names + {c}
    case Copy(c, _) => names + {c}
    case Destroy(c) => names - {c}
    case _ => names
  }

  predicate AllowedRun(names: set<nat>, ops: seq<Op>)
    decreases |ops|
  {
    ops == [] || (Allowed(names, ops[0]) && AllowedRun(NamesAfter(names, ops[0]), ops[1..]))
  }

  predicate Valid(w: World) {
    forall c | c in w.contexts :: w.contexts[c].cell < |w.cells|
  }

  /** What an operation does to the contexts and their cells. Assignment swaps with a copy. */
  function Step(w: World, op: Op): (w': World)
    requires Valid(w) && Allowed(w.contexts.Keys, op)
    ensures Valid(w') && w'.contexts.Keys == NamesAfter(w.contexts.Keys, op)
  {
    var n := |w.cells|;
    match op
    case Construct(c, flags, depth) => World(w.contexts[c := Handle(Fresh(flags, depth), n)], w.cells + [None])
    case Copy(c, from) => w.(contexts := w.contexts[c := w.contexts[from]])
    case Assign(c, from) => w.(contexts := w.contexts[c := w.contexts[from]])
    case Swap(c, other) => w.(contexts := w.contexts[c := w.contexts[other]][other := w.contexts[c]])
    case Set(c, change) =>
      var h := w.contexts[c];
      var settings := Changed(h.settings, change);
      if w.cells[h.cell].Some? then World(w.contexts[c := Handle(settings, n)], w.cells + [None])
      else w.(contexts := w.contexts[c := Handle(settings, h.cell)])
    case Get(c) => w.(cells := w.cells[w.contexts[c].cell := Some(Returned(w, c))])
    case Destroy(c) => w.(contexts := w.contexts - {c})
  }

  /** What getContext returns. */
  function Returned(w: World, c: nat): Settings
    requires Valid(w) && c in w.contexts
  {
    var h := w.contexts[c];
    if w.cells[h.cell].Some? then w.cells[h.cell].value else h.settings
  }

  function Outputs(w: World, ops: seq<Op>): seq<Settings>
    requires Valid(w) && AllowedRun(w.contexts.Keys, ops)
    decreases |ops|
  {
    if ops == [] then [] else
    (if ops[0].Get? then [Returned(w, ops[0].c)] else []) + Outputs(Step(w, ops[0]), ops[1..])
  }

  // --- Contexts that share nothing and are rebuilt on every call ----------------------------------

  type Values = map<nat, Settings>

  function EagerStep(v: Values, op: Op): (v': Values)
    requires Allowed(v.Keys, op)
    ensures v'.Keys == NamesAfter(v.Keys, op)
  {
    match op
    case Construct(c, flags, depth) => v[c := Fresh(flags, depth)]
    case Copy(c, from) => v[c := v[from]]
    case Assign(c, from) => v[c := v[from]]
    case Swap(c, other) => v[c := v[other]][other := v[c]]
    case Set(c, change) => v[c := Changed(v[c], change)]
    case Get(_) => v
    case Destroy(c) => v - {c}
  }

  function EagerOutputs(v: Values, ops: seq<Op>): seq<Settings>
    requires AllowedRun(v.Keys, ops)
    decreases |ops|
  {
    if ops == [] then [] else
    (if ops[0].Get? then [v[ops[0].c]] else []) + EagerOutputs(EagerStep(v, ops[0]), ops[1..])
  }

  function ValuesOf(w: World): (v: Values)
    ensures v.Keys == w.contexts.Keys
  {
    map c | c in w.contexts :: w.contexts[c].settings
  }

  // --- The cache is right -----------------------------------------------------------------------

  /** Contexts that share a cell have the same settings, and what is in it was built from them. */
  ghost predicate Agrees(w: World) {
    && Valid(w)
    && (forall c | c in w.contexts && w.cells[w.contexts[c].cell].Some? ::
         w.cells[w.contexts[c].cell].value == w.contexts[c].settings)
    && (forall c, d | c in w.contexts && d in w.contexts && w.contexts[c].cell == w.contexts[d].cell ::
         w.contexts[c].settings == w.contexts[d].settings)
  }

  /** A setter that changes something is applied only where nothing is shared or the shared cell
      has been filled. */
  ghost predicate Careful(w: World, op: Op)
    requires Valid(w) && Allowed(w.contexts.Keys, op)
  {
    op.Set? ==>
      var h := w.contexts[op.c];
      || w.cells[h.cell].Some?
      || (forall d | d in w.contexts && d != op.c :: w.contexts[d].cell != h.cell)
      || Changed(h.settings, op.change) == h.settings
  }

  ghost predicate CarefulRun(w: World, ops: seq<Op>)
    requires Valid(w) && AllowedRun(w.contexts.Keys, ops)
    decreases |ops|
  {
    ops == [] || (Careful(w, ops[0]) && CarefulRun(Step(w, ops[0]), ops[1..]))
  }

  lemma StepAgreesExactly(w: World, op: Op)
    requires Agrees(w) && Allowed(w.contexts.Keys, op)
    ensures Agrees(Step(w, op)) <==> Careful(w, op)
  {
    if !op.Get? { hide Agrees, Step; }
    match op
    case Set(_, _) => SetAgreesExactly(w, op);
    case Swap(_, _) => NamesAgree(w, op);
    case Copy(_, _) => NamesAgree(w, op);
    case Assign(_, _) => NamesAgree(w, op);
    case Destroy(_) => NamesAgree(w, op);
    case Construct(_, _, _) => ConstructAgrees(w, op);
    case Get(_) =>
  }

  /** Contexts that come and go, or change places, with their settings and cells. */
  lemma HandlesAgree(w: World, w': World)
    requires Agrees(w) && w'.cells == w.cells && w'.contexts.Values <= w.contexts.Values
    ensures Agrees(w')
  {
    forall c | c in w'.contexts
      ensures exists d :: d in w.contexts && w.contexts[d] == w'.contexts[c]
    {
      assert w'.contexts[c] in w'.contexts.Values;
    }
  }

  lemma NamesAgree(w: World, op: Op)
    requires Agrees(w) && (op.Copy? || op.Assign? || op.Swap? || op.Destroy?) && Allowed(w.contexts.Keys, op)
    ensures Agrees(Step(w, op))
  {
    assert Valid(w);
    hide Agrees;
    HandlesAgree(w, Step(w, op));
  }

  lemma ConstructAgrees(w: World, op: Op)
    requires Agrees(w) && op.Construct? && Allowed(w.contexts.Keys, op)
    ensures Agrees(Step(w, op))
  {
    assert forall e | e in Step(w, op).contexts && e != op.c :: Step(w, op).contexts[e] == w.contexts[e];
  }

  lemma SetAgreesExactly(w: World, op: Op)
    requires Agrees(w) && op.Set? && Allowed(w.contexts.Keys, op)
    ensures Agrees(Step(w, op)) <==> Careful(w, op)
  {
    if Careful(w, op) {
      SetAgrees(w, op);
    } else {
      hide Changed;
      var w' := Step(w, op);
      var h := w.contexts[op.c];
      var d :| d in w.contexts && d != op.c && w.contexts[d].cell == h.cell;
      assert w'.contexts[d] == w.contexts[d] && w'.contexts[op.c].cell == h.cell;
    }
  }

  lemma SetAgrees(w: World, op: Op)
    requires Agrees(w) && op.Set? && Allowed(w.contexts.Keys, op) && Careful(w, op)
    ensures Agrees(Step(w, op))
  {
    var h := w.contexts[op.c];
    if w.cells[h.cell].Some? {
      DroppingAgrees(w, op);
    } else if Changed(h.settings, op.change) == h.settings {
      assert Step(w, op).contexts == w.contexts;
    } else {
      OwnAgrees(w, op);
    }
  }

  lemma DroppingAgrees(w: World, op: Op)
    requires Agrees(w) && op.Set? && Allowed(w.contexts.Keys, op) && w.cells[w.contexts[op.c].cell].Some?
    ensures Agrees(Step(w, op))
  {
    hide Changed;
    assert forall e | e in w.contexts && e != op.c :: Step(w, op).contexts[e] == w.contexts[e];
  }

  lemma OwnAgrees(w: World, op: Op)
    requires Agrees(w) && op.Set? && Allowed(w.contexts.Keys, op) && w.cells[w.contexts[op.c].cell].None?
    requires forall d | d in w.contexts && d != op.c :: w.contexts[d].cell != w.contexts[op.c].cell
    ensures Agrees(Step(w, op))
  {
    hide Changed;
    assert forall e | e in w.contexts && e != op.c :: Step(w, op).contexts[e] == w.contexts[e];
  }

  lemma StepRefines(w: World, op: Op)
    requires Valid(w) && Allowed(w.contexts.Keys, op)
    ensures ValuesOf(Step(w, op)) == EagerStep(ValuesOf(w), op)
  {
    hide Changed;
  }

  /** In every careful run getContext returns what would be built from the current settings of the
      context it is called on; so no setter changes what another context returns. */
  lemma {:induction false} CopyOnWriteIsRebuilding(w: World, ops: seq<Op>)
    requires Agrees(w) && AllowedRun(w.contexts.Keys, ops) && CarefulRun(w, ops)
    ensures Outputs(w, ops) == EagerOutputs(ValuesOf(w), ops)
    decreases |ops|
  {
    if ops != [] {
      hide Agrees, Step, EagerStep, Careful;
      StepAgreesExactly(w, ops[0]);
      StepRefines(w, ops[0]);
      if ops[0].Get? { ReturnsOwn(w, ops[0].c); }
      CopyOnWriteIsRebuilding(Step(w, ops[0]), ops[1..]);
    }
  }

  lemma ReturnsOwn(w: World, c: nat)
    requires Agrees(w) && c in w.contexts
    ensures Returned(w, c) == ValuesOf(w)[c]
  {
  }

  lemma EveryCarefulRun(ops: seq<Op>)
    requires AllowedRun(EMPTY.contexts.Keys, ops) && CarefulRun(EMPTY, ops)
    ensures Outputs(EMPTY, ops) == EagerOutputs(map[], ops)
  {
    CopyOnWriteIsRebuilding(EMPTY, ops);
  }

  predicate OnlyGets(ops: seq<Op>) { forall i | 0 <= i < |ops| :: ops[i].Get? }

  lemma {:induction false} GetsAreCareful(w: World, ops: seq<Op>)
    requires Valid(w) && OnlyGets(ops) && AllowedRun(w.contexts.Keys, ops)
    ensures CarefulRun(w, ops)
    decreases |ops|
  {
    if ops != [] {
      GetsAreCareful(Step(w, ops[0]), ops[1..]);
    }
  }

  /** The setter of a context breaks what the copies return exactly when it changes the settings of
      a context that shares its cell before anything was built: then two calls of getContext, on
      the other context and on this one, show it. */
  lemma SetterExact(w: World, op: Op)
    requires Agrees(w) && op.Set? && Allowed(w.contexts.Keys, op)
    ensures var w' := Step(w, op);
      (forall gets | OnlyGets(gets) && AllowedRun(w'.contexts.Keys, gets) ::
         Outputs(w', gets) == EagerOutputs(ValuesOf(w'), gets))
      <==> Careful(w, op)
  {
    var w' := Step(w, op);
    StepAgreesExactly(w, op);
    if Careful(w, op) {
      forall gets | OnlyGets(gets) && AllowedRun(w'.contexts.Keys, gets)
        ensures Outputs(w', gets) == EagerOutputs(ValuesOf(w'), gets)
      {
        hide Step, Outputs, EagerOutputs;
        GetsAreCareful(w', gets);
        CopyOnWriteIsRebuilding(w', gets);
      }
    } else {
      UncarefulShows(w, op);
    }
  }

  lemma UncarefulShows(w: World, op: Op)
    requires Agrees(w) && op.Set? && Allowed(w.contexts.Keys, op) && !Careful(w, op)
    ensures exists gets | OnlyGets(gets) && AllowedRun(Step(w, op).contexts.Keys, gets) ::
      Outputs(Step(w, op), gets) != EagerOutputs(ValuesOf(Step(w, op)), gets)
  {
    hide Step, Outputs, EagerOutputs, Returned, AllowedRun, Careful;
    var d := Sharer(w, op);
    TwoGets(Step(w, op), d, op.c);
    assert OnlyGets([Get(d), Get(op.c)]);
    SecondGetIsStale(w, op, d);
  }

  lemma Sharer(w: World, op: Op) returns (d: nat)
    requires Agrees(w) && op.Set? && Allowed(w.contexts.Keys, op) && !Careful(w, op)
    ensures d in w.contexts && d != op.c && w.contexts[d].cell == w.contexts[op.c].cell
  {
    hide Changed;
    d :| d in w.contexts && d != op.c && w.contexts[d].cell == w.contexts[op.c].cell;
  }

  lemma SecondGetIsStale(w: World, op: Op, d: nat)
    requires Agrees(w) && op.Set? && Allowed(w.contexts.Keys, op) && !Careful(w, op)
    requires d in w.contexts && d != op.c && w.contexts[d].cell == w.contexts[op.c].cell
    ensures Returned(Step(Step(w, op), Get(d)), op.c) != ValuesOf(Step(w, op))[op.c]
  {
    hide Changed;
    var h := w.contexts[op.c];
    var w' := w.(contexts := w.contexts[op.c := Handle(Changed(h.settings, op.change), h.cell)]);
    assert Step(w, op) == w';
    FilledFrom(w', d, op.c);
  }

  /** The second of two contexts that share an empty cell gets what was built from the first. */
  lemma FilledFrom(w: World, d: nat, c: nat)
    requires Valid(w) && c in w.contexts && d in w.contexts && w.contexts[c].cell == w.contexts[d].cell
    requires w.cells[w.contexts[d].cell].None?
    ensures Returned(Step(w, Get(d)), c) == w.contexts[d].settings
  {
  }

  lemma LazyGet(w: World, c: nat, rest: seq<Op>)
    requires Valid(w) && c in w.contexts && AllowedRun(w.contexts.Keys, rest)
    ensures AllowedRun(w.contexts.Keys, [Get(c)] + rest)
    ensures Outputs(w, [Get(c)] + rest) == [Returned(w, c)] + Outputs(Step(w, Get(c)), rest)
  {
    hide Returned;
    assert ([Get(c)] + rest)[1..] == rest;
  }

  lemma EagerGet(v: Values, c: nat, rest: seq<Op>)
    requires c in v && AllowedRun(v.Keys, rest)
    ensures AllowedRun(v.Keys, [Get(c)] + rest)
    ensures EagerOutputs(v, [Get(c)] + rest) == [v[c]] + EagerOutputs(v, rest)
  {
    assert ([Get(c)] + rest)[1..] == rest;
  }

  lemma NoOps(w: World, v: Values)
    requires Valid(w)
    ensures AllowedRun(w.contexts.Keys, []) && Outputs(w, []) == []
    ensures AllowedRun(v.Keys, []) && EagerOutputs(v, []) == []
  {
  }

  lemma TwoGets(w: World, d: nat, c: nat)
    requires Valid(w) && d in w.contexts && c in w.contexts
    ensures AllowedRun(w.contexts.Keys, [Get(d), Get(c)])
    ensures Outputs(w, [Get(d), Get(c)]) == [Returned(w, d), Returned(Step(w, Get(d)), c)]
    ensures EagerOutputs(ValuesOf(w), [Get(d), Get(c)]) == [ValuesOf(w)[d], ValuesOf(w)[c]]
  {
    hide Returned, ValuesOf, Step, Outputs, EagerOutputs, AllowedRun;
    var w' := Step(w, Get(d));
    var v := ValuesOf(w);
    NoOps(Step(w', Get(c)), v);
    assert [Get(c)] + [] == [Get(c)] && [Get(d)] + [Get(c)] == [Get(d), Get(c)];
    LazyGet(w', c, []);
    LazyGet(w, d, [Get(c)]);
    EagerGet(v, c, []);
    EagerGet(v, d, [Get(c)]);
  }

  // --- The objects behave as the model -------------------------------------------------------------

  ghost function Snapshot(contexts: map<nat, Context>): map<nat, (Settings, Cell)>
    reads contexts.Values
  {
    map c | c in contexts :: (contexts[c].Current(), contexts[c].cell)
  }

  ghost predicate Describes(w: World, objects: map<nat, (Settings, Cell)>, cells: seq<Cell>) {
    && Valid(w)
    && objects.Keys == w.contexts.Keys
    && |cells| == |w.cells|
    && forall c | c in objects :: objects[c] == (w.contexts[c].settings, cells[w.contexts[c].cell])
  }

  predicate Different(contexts: map<nat, Context>) {
    forall c, d | c in contexts && d in contexts && c != d :: contexts[c] != contexts[d]
  }

  ghost predicate Filled(contents: seq<Option<Settings>>, cells: seq<Cell>)
    reads cells
  {
    && |cells| == |contents|
    && (forall i, j | 0 <= i < j < |cells| :: cells[i] != cells[j])
    && (forall i | 0 <= i < |cells| :: cells[i].built == contents[i])
  }

  /** `contexts` and `cells` are the objects that `w` describes. */
  ghost predicate Represents(w: World, contexts: map<nat, Context>, cells: seq<Cell>)
    reads contexts.Values, cells
  {
    Describes(w, Snapshot(contexts), cells) && Different(contexts) && Filled(w.cells, cells)
  }

  method ApplySetter(context: Context, change: Change)
    modifies context
    ensures context.Current() == Changed(old(context.Current()), change) && context.DroppedWhenBuilt()
  {
    match change
    case Flags(flags) => context.SetFlags(flags);
    case PasswordGetter(getter) => context.SetPasswordGetter(getter);
    case ServerCertificate(path) => context.SetServerCertificateFilename(path);
    case CertificateChain(path) => context.SetCertificateChainFilename(path);
    case PrivateKey(path) => context.SetPrivateKeyFilename(path);
    case TrustedCaCertificates(path) => context.SetTrustedCACertificatesFilename(path);
    case TrustedCaDirectory(path) => context.SetTrustedCACertificatesDirectoryName(path);
    case VerificationDepth(depth) => context.SetCertificateVerificationDepth(depth);
  }

  lemma ConstructDescribed(w: World, objects: map<nat, (Settings, Cell)>, cells: seq<Cell>, op: Op, cell: Cell)
    requires Describes(w, objects, cells) && op.Construct? && Allowed(w.contexts.Keys, op)
    ensures Describes(Step(w, op), objects[op.c := (Fresh(op.flags, op.depth), cell)], cells + [cell])
  {
    hide Fresh;
  }

  lemma CopyDescribed(w: World, objects: map<nat, (Settings, Cell)>, cells: seq<Cell>, op: Op)
    requires Describes(w, objects, cells) && (op.Copy? || op.Assign?) && Allowed(w.contexts.Keys, op)
    ensures Describes(Step(w, op), objects[op.c := objects[op.from]], cells)
  {
  }

  lemma SetDescribed(w: World, objects: map<nat, (Settings, Cell)>, cells: seq<Cell>, op: Op, cell: Cell)
    requires Describes(w, objects, cells) && op.Set? && Allowed(w.contexts.Keys, op)
    requires w.cells[w.contexts[op.c].cell].None? ==> cell == objects[op.c].1
    ensures Describes(Step(w, op), objects[op.c := (Changed(objects[op.c].0, op.change), cell)],
                      if w.cells[w.contexts[op.c].cell].Some? then cells + [cell] else cells)
  {
    hide Changed;
  }

  lemma SwapDescribed(w: World, objects: map<nat, (Settings, Cell)>, cells: seq<Cell>, op: Op)
    requires Describes(w, objects, cells) && Allowed(w.contexts.Keys, op) && op.Swap?
    ensures var between: map<nat, (Settings, Cell)> := objects[op.c := objects[op.other]];
      Describes(Step(w, op), between[op.other := objects[op.c]], cells)
  {
  }

  lemma CellsAfter(w: World, op: Op)
    requires Valid(w) && Allowed(w.contexts.Keys, op) && !op.Get?
    ensures Step(w, op).cells ==
      if op.Construct? || (op.Set? && w.cells[w.contexts[op.c].cell].Some?) then w.cells + [None] else w.cells
  {
  }

  method PerformConstruct(ghost w: World, contexts: map<nat, Context>, ghost cells: seq<Cell>, op: Op)
    returns (contexts': map<nat, Context>, ghost cells': seq<Cell>)
    requires Represents(w, contexts, cells) && op.Construct? && Allowed(contexts.Keys, op)
    ensures Represents(Step(w, op), contexts', cells')
    ensures fresh(contexts'.Values - contexts.Values) && fresh(set cell | cell in cells' && cell !in cells)
  {
    hide Context.Current, Describes, Step, Filled, Different;
    KeysMatch(w, contexts, cells);
    CellsAfter(w, op);
    ghost var before := Snapshot(contexts);
    var context := new Context(op.flags, op.depth);
    contexts' := contexts[op.c := context];
    cells' := cells + [context.cell];
    FilledMore(w.cells, cells, context.cell);
    OneMore(contexts, op.c, context);
    ConstructDescribed(w, before, cells, op, context.cell);
    assert Snapshot(contexts') == before[op.c := (context.Current(), context.cell)];
  }

  lemma KeysMatch(w: World, contexts: map<nat, Context>, cells: seq<Cell>)
    requires Represents(w, contexts, cells)
    ensures Valid(w) && contexts.Keys == w.contexts.Keys && |cells| == |w.cells|
  {
    assert Snapshot(contexts).Keys == contexts.Keys;
  }

  lemma ObjectOf(w: World, contexts: map<nat, Context>, cells: seq<Cell>, c: nat)
    requires Represents(w, contexts, cells) && c in contexts
    ensures c in w.contexts && w.contexts[c].cell < |cells|
    ensures contexts[c].Current() == w.contexts[c].settings && contexts[c].cell == cells[w.contexts[c].cell]
  {
    assert Snapshot(contexts)[c] == (contexts[c].Current(), contexts[c].cell);
  }

  lemma OneMore(contexts: map<nat, Context>, c: nat, context: Context)
    requires Different(contexts) && c !in contexts && context !in contexts.Values
    ensures Different(contexts[c := context])
  {
  }

  lemma Others(contexts: map<nat, Context>, c: nat)
    requires Different(contexts) && c in contexts
    ensures forall d | d in contexts && d != c :: contexts[d] != contexts[c]
  {
  }

  method PerformCopy(ghost w: World, contexts: map<nat, Context>, ghost cells: seq<Cell>, op: Op)
    returns (contexts': map<nat, Context>)
    requires Represents(w, contexts, cells) && op.Copy? && Allowed(contexts.Keys, op)
    ensures Represents(Step(w, op), contexts', cells)
    ensures fresh(contexts'.Values - contexts.Values)
  {
    hide Context.Current, Describes, Step, Filled, Different;
    KeysMatch(w, contexts, cells);
    ObjectOf(w, contexts, cells, op.from);
    CellsAfter(w, op);
    ghost var before := Snapshot(contexts);
    var context := new Context.Copy(contexts[op.from]);
    contexts' := contexts[op.c := context];
    OneMore(contexts, op.c, context);
    CopyDescribed(w, before, cells, op);
    assert Snapshot(contexts') == before[op.c := (context.Current(), context.cell)];
  }

  method PerformAssign(ghost w: World, contexts: map<nat, Context>, ghost cells: seq<Cell>, op: Op)
    requires Represents(w, contexts, cells) && op.Assign? && Allowed(contexts.Keys, op)
    modifies contexts.Values
    ensures Represents(Step(w, op), contexts, cells)
  {
    hide Context.Current, Describes, Step, Filled, Different;
    KeysMatch(w, contexts, cells);
    Others(contexts, op.c);
    CellsAfter(w, op);
    ghost var before := Snapshot(contexts);
    CopyDescribed(w, before, cells, op);
    var context := new Context.Copy(contexts[op.from]);
    contexts[op.c].Swap(context);
    assert Snapshot(contexts) == before[op.c := before[op.from]];
  }

  method PerformSwap(ghost w: World, contexts: map<nat, Context>, ghost cells: seq<Cell>, op: Op)
    requires Represents(w, contexts, cells) && op.Swap? && Allowed(contexts.Keys, op)
    modifies contexts.Values
    ensures Represents(Step(w, op), contexts, cells)
  {
    hide Context.Current, Describes, Step, Filled, Different;
    KeysMatch(w, contexts, cells);
    Others(contexts, op.c);
    Others(contexts, op.other);
    CellsAfter(w, op);
    ghost var before := Snapshot(contexts);
    SwapDescribed(w, before, cells, op);
    contexts[op.c].Swap(contexts[op.other]);
    ghost var between: map<nat, (Settings, Cell)> := before[op.c := before[op.other]];
    assert Snapshot(contexts) == between[op.other := before[op.c]];
  }

  lemma FilledAt(contents: seq<Option<Settings>>, cells: seq<Cell>, i: nat)
    requires Filled(contents, cells) && i < |cells|
    ensures cells[i].built == contents[i]
  {
  }

  lemma FilledMore(contents: seq<Option<Settings>>, cells: seq<Cell>, cell: Cell)
    requires Filled(contents, cells) && cell !in cells && cell.built == None
    ensures Filled(contents + [None], cells + [cell])
  {
  }

  method PerformSet(ghost w: World, contexts: map<nat, Context>, ghost cells: seq<Cell>, op: Op)
    returns (ghost cells': seq<Cell>)
    requires Represents(w, contexts, cells) && op.Set? && Allowed(contexts.Keys, op)
    modifies contexts.Values
    ensures Represents(Step(w, op), contexts, cells')
    ensures fresh(set cell | cell in cells' && cell !in cells)
  {
    hide Context.Current, Changed, Describes, Step, Filled, Different;
    KeysMatch(w, contexts, cells);
    ObjectOf(w, contexts, cells, op.c);
    Others(contexts, op.c);
    CellsAfter(w, op);
    var context := contexts[op.c];
    FilledAt(w.cells, cells, w.contexts[op.c].cell);
    ghost var before := Snapshot(contexts);
    ghost var filled := context.cell.built.Some?;
    ApplySetter(context, op.change);
    cells' := if filled then cells + [context.cell] else cells;
    SetDescribed(w, before, cells, op, context.cell);
    if filled { FilledMore(w.cells, cells, context.cell); }
    assert Snapshot(contexts) == before[op.c := (context.Current(), context.cell)];
  }

  lemma GetDescribed(w: World, objects: map<nat, (Settings, Cell)>, cells: seq<Cell>, op: Op)
    requires Describes(w, objects, cells) && op.Get? && Allowed(w.contexts.Keys, op)
    ensures Describes(Step(w, op), objects, cells)
    ensures Step(w, op).cells == w.cells[w.contexts[op.c].cell := Some(Returned(w, op.c))]
  {
  }

  method FillCell(ghost contents: seq<Option<Settings>>, context: Context, ghost cells: seq<Cell>, ghost i: nat)
    returns (built: Settings)
    requires Filled(contents, cells) && i < |cells| && context.cell == cells[i]
    modifies cells[i]
    ensures built == if contents[i].Some? then contents[i].value else context.Current()
    ensures Filled(contents[i := Some(built)], cells)
  {
    hide Context.Current;
    built := context.GetContext();
  }

  method PerformGet(ghost w: World, contexts: map<nat, Context>, ghost cells: seq<Cell>, op: Op)
    returns (context: Settings)
    requires Represents(w, contexts, cells) && op.Get? && Allowed(contexts.Keys, op)
    modifies cells
    ensures Represents(Step(w, op), contexts, cells) && context == Returned(w, op.c)
  {
    hide Context.Current, Describes, Step, Different, Filled;
    KeysMatch(w, contexts, cells);
    ObjectOf(w, contexts, cells, op.c);
    ghost var before := Snapshot(contexts);
    GetDescribed(w, before, cells, op);
    ghost var i := w.contexts[op.c].cell;
    assert cells[i] in cells;
    context := FillCell(w.cells, contexts[op.c], cells, i);
    assert Snapshot(contexts) == before;
  }

  lemma DestroyDescribed(w: World, objects: map<nat, (Settings, Cell)>, cells: seq<Cell>, op: Op)
    requires Describes(w, objects, cells) && op.Destroy? && Allowed(w.contexts.Keys, op)
    ensures Describes(Step(w, op), objects - {op.c}, cells)
  {
  }

  lemma DestroyRepresented(w: World, contexts: map<nat, Context>, cells: seq<Cell>, op: Op)
    requires Represents(w, contexts, cells) && op.Destroy? && Allowed(contexts.Keys, op)
    ensures Represents(Step(w, op), contexts - {op.c}, cells)
  {
    hide Context.Current, Describes, Step, Filled;
    KeysMatch(w, contexts, cells);
    CellsAfter(w, op);
    DestroyDescribed(w, Snapshot(contexts), cells, op);
    assert Snapshot(contexts - {op.c}) == Snapshot(contexts) - {op.c};
  }

  method Perform(ghost w: World, contexts: map<nat, Context>, ghost cells: seq<Cell>, op: Op)
    returns (contexts': map<nat, Context>, ghost cells': seq<Cell>, output: seq<Settings>)
    requires Represents(w, contexts, cells) && Allowed(contexts.Keys, op)
    modifies contexts.Values, cells
    ensures Represents(Step(w, op), contexts', cells')
    ensures output == if op.Get? then [Returned(w, op.c)] else []
    ensures fresh(contexts'.Values - contexts.Values) && fresh(set cell | cell in cells' && cell !in cells)
  {
    KeysMatch(w, contexts, cells);
    hide Represents, Step, Returned;
    contexts', cells', output := contexts, cells, [];
    match op {
      case Construct(_, _, _) =>
        contexts', cells' := PerformConstruct(w, contexts, cells, op);
      case Copy(_, _) =>
        contexts' := PerformCopy(w, contexts, cells, op);
      case Assign(_, _) =>
        PerformAssign(w, contexts, cells, op);
      case Swap(_, _) =>
        PerformSwap(w, contexts, cells, op);
      case Set(_, _) =>
        cells' := PerformSet(w, contexts, cells, op);
      case Get(_) =>
        var context := PerformGet(w, contexts, cells, op);
        output := [context];
      case Destroy(c) =>
        DestroyRepresented(w, contexts, cells, op);
        contexts' := contexts - {c};
    }
  }

  /** Any number of contexts, used in any way, return what the model says. */
  method Replay(ops: seq<Op>) returns (outputs: seq<Settings>)
    requires AllowedRun(EMPTY.contexts.Keys, ops)
    ensures outputs == Outputs(EMPTY, ops)
  {
    hide Step, Returned, Allowed, AllowedRun, Outputs, Represents, Valid;
    outputs := [];
    var contexts: map<nat, Context> := map[];
    ghost var cells: seq<Cell> := [];
    ghost var w := EMPTY;
    var i := 0;
    NothingRepresented(contexts, cells);
    assert ops[0..] == ops;
    while i < |ops|
      invariant i <= |ops|
      invariant fresh(contexts.Values) && fresh(set cell | cell in cells)
      invariant Represents(w, contexts, cells) && Valid(w)
      invariant AllowedRun(w.contexts.Keys, ops[i..])
      invariant outputs + Outputs(w, ops[i..]) == Outputs(EMPTY, ops)
    {
      OneOp(w, ops, i);
      KeysMatch(w, contexts, cells);
      var output;
      contexts, cells, output := Perform(w, contexts, cells, ops[i]);
      outputs := outputs + output;
      w := Step(w, ops[i]);
      i := i + 1;
    }
    assert ops[i..] == [];
    NoOps(w, map[]);
  }

  lemma OneOp(w: World, ops: seq<Op>, i: nat)
    requires Valid(w) && i < |ops| && AllowedRun(w.contexts.Keys, ops[i..])
    ensures Allowed(w.contexts.Keys, ops[i]) && AllowedRun(Step(w, ops[i]).contexts.Keys, ops[i + 1..])
    ensures Outputs(w, ops[i..])
         == (if ops[i].Get? then [Returned(w, ops[i].c)] else []) + Outputs(Step(w, ops[i]), ops[i + 1..])
  {
    hide Returned;
    assert ops[i] == ops[i..][0] && ops[i..][1..] == ops[i + 1..];
  }

  lemma NothingRepresented(contexts: map<nat, Context>, cells: seq<Cell>)
    requires contexts == map[] && cells == []
    ensures Represents(EMPTY, contexts, cells) && Valid(EMPTY)
  {
  }

  /** A run in which a setter changes what a copy returns: the copy still shares the cell that was
      not filled, and its getContext fills it from the old settings. */
  lemma SetterBreaksCopy()
    ensures var ops := [Construct(0, 0, 0), Copy(1, 0), Set(0, Flags(1)), Get(1), Get(0)];
      AllowedRun(EMPTY.contexts.Keys, ops) && Outputs(EMPTY, ops) != EagerOutputs(ValuesOf(EMPTY), ops)
  {
    hide Outputs, EagerOutputs, AllowedRun, Step;
    var set' := Set(0, Flags(1));
    EmptyGrows();
    SharedGoesWrong(set');
    assert [set'] + [Get(1), Get(0)] == [set', Get(1), Get(0)];
    Before(SHARED, set', [Get(1), Get(0)]);
    assert [Copy(1, 0)] + [set', Get(1), Get(0)] == [Copy(1, 0), set', Get(1), Get(0)];
    Before(ALONE, Copy(1, 0), [set', Get(1), Get(0)]);
    assert [Construct(0, 0, 0)] + [Copy(1, 0), set', Get(1), Get(0)]
        == [Construct(0, 0, 0), Copy(1, 0), set', Get(1), Get(0)];
    Before(EMPTY, Construct(0, 0, 0), [Copy(1, 0), set', Get(1), Get(0)]);
  }

  lemma SharedGoesWrong(op: Op)
    requires op == Set(0, Flags(1))
    ensures Allowed(SHARED.contexts.Keys, op) && AllowedRun(Step(SHARED, op).contexts.Keys, [Get(1), Get(0)])
    ensures Outputs(Step(SHARED, op), [Get(1), Get(0)]) != EagerOutputs(ValuesOf(Step(SHARED, op)), [Get(1), Get(0)])
  {
    hide Outputs, EagerOutputs, AllowedRun, Step;
    assert !Careful(SHARED, op) by { assert SHARED.contexts[1].cell == SHARED.contexts[0].cell; }
    assert Agrees(SHARED);
    TwoGets(Step(SHARED, op), 1, 0);
    SecondGetIsStale(SHARED, op, 1);
  }

  const ALONE := World(map[0 := Handle(Fresh(0, 0), 0)], [None])
  const SHARED := World(map[0 := Handle(Fresh(0, 0), 0), 1 := Handle(Fresh(0, 0), 0)], [None])

  lemma EmptyGrows()
    ensures Step(EMPTY, Construct(0, 0, 0)) == ALONE && Step(ALONE, Copy(1, 0)) == SHARED
  {
    var none: map<nat, Handle> := map[];
    assert none[0 := Handle(Fresh(0, 0), 0)] == map[0 := Handle(Fresh(0, 0), 0)];
  }

  /** An operation that returns nothing, before a run that goes wrong. */
  lemma Before(w: World, op: Op, ops: seq<Op>)
    requires Valid(w) && Allowed(w.contexts.Keys, op) && !op.Get?
    requires AllowedRun(Step(w, op).contexts.Keys, ops)
    requires Outputs(Step(w, op), ops) != EagerOutputs(ValuesOf(Step(w, op)), ops)
    ensures AllowedRun(w.contexts.Keys, [op] + ops) && Outputs(w, [op] + ops) != EagerOutputs(ValuesOf(w), [op] + ops)
  {
    hide Step, EagerStep;
    assert ([op] + ops)[1..] == ops;
    StepRefines(w, op);
    assert [] + Outputs(Step(w, op), ops) == Outputs(Step(w, op), ops);
    assert [] + EagerOutputs(ValuesOf(Step(w, op)), ops) == EagerOutputs(ValuesOf(Step(w, op)), ops);
  }
}
