/** The handler registry: a process-wide table from category to the list of
    handlers registered for it, and the chain runner that walks one list. */
module HandlerRegistry {
  import opened Values

  /** What running a handler's block does: whether it called `stop` on its
      handler, and what it returned or raised. */
  datatype BlockRun = BlockRun(stopCalled: bool, result: Outcome<Value>)

  /** A handler's block, called with the event (and the handler, through which
      it may call `stop`). */
  type Block = Value -> BlockRun

  /** The categories the table is created with. */
  const Categories: set<string> := {"action", "command", "event", "menu"}

  /** The table on first registration: those categories, each with no handler. */
  const EmptyTable: map<string, seq<Handler>> := map["action" := [], "command" := [], "event" := [], "menu" := []]

  /** The response of a handler whose block raised (or that has no block). */
  const Fallback := Obj([("text", Str("Woops, encountered an error."))])

  /** What one run of a handler with block `block` answers for `event`. A
      missing block raises too (`nil.call`), inside the rescued method. */
  function HandlerResponse(block: Option<Block>, event: Value): (r: Value)
    ensures block.None? ==> r == Fallback
    ensures block.Some? && block.value(event).result.Raised? ==> r == Fallback
    ensures block.Some? && block.value(event).result.Returned? ==> r == block.value(event).result.value
  {
    match block
    case None => Fallback
    case Some(b) =>
      match b(event).result
      case Returned(v) => v
      case Raised(_) => Fallback
  }

  /** Whether one run of a handler with block `block` ends with it stopped. */
  predicate StopRequested(block: Option<Block>, event: Value) {
    block.Some? && block.value(event).stopCalled
  }

  /** How many handlers of a chain run: every one up to and including the
      first that requests a stop, or all of them. */
  function Ran(hs: seq<Handler>, event: Value): (n: nat)
    ensures n <= |hs|
    ensures n == 0 <==> hs == []
    ensures forall i :: 0 <= i < n - 1 ==> !StopRequested(hs[i].block, event)
    ensures n < |hs| ==> StopRequested(hs[n - 1].block, event)
  {
    if hs == [] then 0
    else if StopRequested(hs[0].block, event) then 1
    else 1 + Ran(hs[1..], event)
  }

  /** What a chain answers: the response of the last handler that ran, nil
      when none did. */
  function ChainResponse(hs: seq<Handler>, event: Value): (r: Value)
    ensures hs == [] ==> r == Null
    ensures hs != [] ==> r == HandlerResponse(hs[Ran(hs, event) - 1].block, event)
  {
    var n := Ran(hs, event);
    if n == 0 then Null else HandlerResponse(hs[n - 1].block, event)
  }

  predicate Distinct(hs: seq<Handler>) {
    forall i, j :: 0 <= i < j < |hs| ==> hs[i] != hs[j]
  }

  /** The stop flags of `hs` after one run of that chain on `event` (`Some`),
      or after no run of it (`None`): each handler that ran holds the flag its
      block chose, every other keeps its flag. */
  twostate predicate FlagsAfter(hs: seq<Handler>, event: Option<Value>)
    reads hs
  {
    forall i :: 0 <= i < |hs| ==>
      hs[i].stopped ==
        if event.Some? && i < Ran(hs, event.value) then StopRequested(hs[i].block, event.value) else old(hs[i].stopped)
  }

  /** The first handler that requests a stop is the last one to run. */
  lemma {:induction false} RanFirstStop(hs: seq<Handler>, event: Value, i: nat)
    requires i < |hs| && StopRequested(hs[i].block, event)
    requires forall j :: 0 <= j < i ==> !StopRequested(hs[j].block, event)
    ensures Ran(hs, event) == i + 1
  {
    if i > 0 {
      assert forall j :: 0 <= j < i - 1 ==> hs[1..][j] == hs[j + 1];
      RanFirstStop(hs[1..], event, i - 1);
    }
  }

  /** Past a prefix with no stop, the handler at `i` runs, and it is the
      last to run exactly when it requests a stop. */
  lemma RanAt(hs: seq<Handler>, event: Value, i: nat)
    requires i < |hs|
    requires forall j :: 0 <= j < i ==> !StopRequested(hs[j].block, event)
    ensures Ran(hs, event) > i
    ensures StopRequested(hs[i].block, event) ==> Ran(hs, event) == i + 1
  {
    RanPastPrefix(hs, event, i);
    if StopRequested(hs[i].block, event) {
      RanFirstStop(hs, event, i);
    }
  }

  /** Without a stop every handler runs. */
  lemma {:induction false} RanNoStop(hs: seq<Handler>, event: Value)
    requires forall j :: 0 <= j < |hs| ==> !StopRequested(hs[j].block, event)
    ensures Ran(hs, event) == |hs|
  {
    if hs != [] {
      assert forall j :: 0 <= j < |hs| - 1 ==> hs[1..][j] == hs[j + 1];
      RanNoStop(hs[1..], event);
    }
  }

  /** Handlers after a stop make no difference: neither to how many run nor
      to the answer. */
  lemma {:induction false} StopHidesLater(hs: seq<Handler>, later: seq<Handler>, event: Value)
    requires exists i :: 0 <= i < |hs| && StopRequested(hs[i].block, event)
    ensures Ran(hs + later, event) == Ran(hs, event)
    ensures ChainResponse(hs + later, event) == ChainResponse(hs, event)
  {
    var n := Ran(hs, event);
    if n == |hs| {
      var i :| 0 <= i < |hs| && StopRequested(hs[i].block, event);
      assert i == n - 1;
    }
    assert StopRequested(hs[n - 1].block, event);
    var all := hs + later;
    assert forall j :: 0 <= j < n ==> all[j] == hs[j];
    RanFirstStop(all, event, n - 1);
  }

  /** Past a prefix with no stop, the chain runs at least one more handler. */
  lemma {:induction false} RanPastPrefix(hs: seq<Handler>, event: Value, m: nat)
    requires m < |hs|
    requires forall j :: 0 <= j < m ==> !StopRequested(hs[j].block, event)
    ensures Ran(hs, event) > m
  {
    if m > 0 {
      assert forall j :: 0 <= j < m - 1 ==> hs[1..][j] == hs[j + 1];
      RanPastPrefix(hs[1..], event, m - 1);
    }
  }

  /** A block that raises without stopping answers the fallback, and the
      chain goes on to the next handler. */
  lemma RaiseContinues(hs: seq<Handler>, event: Value, i: nat)
    requires i + 1 < |hs|
    requires hs[i].block.Some? && hs[i].block.value(event).result.Raised? && !hs[i].block.value(event).stopCalled
    requires forall j :: 0 <= j < i ==> !StopRequested(hs[j].block, event)
    ensures HandlerResponse(hs[i].block, event) == Fallback
    ensures Ran(hs, event) > i + 1
  {
    RanPastPrefix(hs, event, i + 1);
  }

  class Handler {
    const kind: string
    const name: Option<string>
    const block: Option<Block>
    var stopped: bool

    /** `Handler.new(type, name, &block)`: a handler starts not stopped. */
    constructor(kind: string, name: Option<string>, block: Option<Block>)
      ensures this.kind == kind && this.name == name && this.block == block
      ensures !stopped
    {
      this.kind := kind;
      this.name := name;
      this.block := block;
      stopped := false;
    }

    /** `run(event)`: clears the stop flag, then calls the block; anything it
        raises becomes the fallback response. Only a `stop` during this call
        leaves the handler stopped. */
    method Run(event: Value) returns (response: Value)
      modifies this
      ensures stopped == StopRequested(block, event)
      ensures response == HandlerResponse(block, event)
    {
      stopped := false;
      match block {
        case None =>
          response := Fallback;
        case Some(b) =>
          var run := b(event);
          if run.stopCalled {
            Stop();
          }
          match run.result {
            case Returned(v) => response := v;
            case Raised(_) => response := Fallback;
          }
      }
    }

    /** `stop`: asks the chain runner not to run later handlers. */
    method Stop()
      modifies this
      ensures stopped
    {
      stopped := true;
    }

    /** `stopped?`. */
    function IsStopped(): bool
      reads this
    {
      stopped
    }
  }

  class Registry {
    /** `@handlers`: nil until the first registration. */
    var table: Option<map<string, seq<Handler>>>

    /** Each list holds distinct handlers of its own category. */
    predicate Valid()
      reads this
    {
      table.Some? ==>
        forall k :: k in table.value ==>
          (forall i :: 0 <= i < |table.value[k]| ==> table.value[k][i].kind == k) &&
          (forall i, j :: 0 <= i < j < |table.value[k]| ==> table.value[k][i] != table.value[k][j])
    }

    /** The table holds exactly the four categories it is created with. */
    predicate HasCategories()
      reads this
    {
      table.Some? && table.value.Keys == Categories
    }

    predicate HasCategory(kind: string)
      reads this
    {
      table.Some? && kind in table.value
    }

    constructor()
      ensures table.None? && Valid()
    {
      table := None;
    }

    /** `Handler.handlers`. */
    function Handlers(): Option<map<string, seq<Handler>>>
      reads this
    {
      table
    }

    /** `Handler.add(type, name, &block)`: creates the table with its four
        empty categories on first use, then appends one new handler to the
        list of `kind`. For any other kind the list is nil, and `<<` on it
        raises `NoMethodError` (the table has been created all the same). */
    method Add(kind: string, name: Option<string>, block: Option<Block>) returns (r: Outcome<()>)
      requires Valid()
      modifies this
      ensures Valid()
      ensures old(table).None? ==> HasCategories()
      ensures var base := if old(table).Some? then old(table).value else EmptyTable;
        if kind in base then
          r == Returned(()) && table.Some? && table.value.Keys == base.Keys &&
          (forall k :: k in base && k != kind ==> table.value[k] == base[k]) &&
          |table.value[kind]| == |base[kind]| + 1 &&
          table.value[kind][..|base[kind]|] == base[kind] &&
          var h := table.value[kind][|base[kind]|];
          fresh(h) && h.kind == kind && h.name == name && h.block == block && !h.stopped
        else
          r == Raised("NoMethodError") && table == Some(base)
    {
      if table.None? {
        table := Some(EmptyTable);
      }
      var t := table.value;
      if kind in t {
        var h := new Handler(kind, name, block);
        table := Some(t[kind := t[kind] + [h]]);
        assert table.value[kind][..|t[kind]|] == t[kind];
        r := Returned(());
      } else {
        r := Raised("NoMethodError");
      }
    }

    /** `Handler.run(type, event)`: runs the handlers of `kind` in order,
        as `RunChain` does. A table that is nil, or has no list for `kind`,
        raises `NoMethodError`. */
    method Run(kind: string, event: Value) returns (r: Outcome<Value>)
      requires Valid()
      modifies if HasCategory(kind) then table.value[kind] else []
      ensures table == old(table)
      ensures !HasCategory(kind) ==> r == Raised("NoMethodError")
      ensures HasCategory(kind) ==>
        var hs := table.value[kind];
        var n := Ran(hs, event);
        r == Returned(ChainResponse(hs, event)) &&
        forall i :: 0 <= i < |hs| ==> hs[i].stopped == if i < n then StopRequested(hs[i].block, event) else old(hs[i].stopped)
    {
      if !HasCategory(kind) {
        return Raised("NoMethodError");
      }
      var response := RunChain(table.value[kind], event);
      r := Returned(response);
    }
  }

  /** The loop of `Handler.run`: each handler in order, keeping the last
      response and leaving the loop after a handler that is stopped. Exactly
      the handlers that ran have their stop flag reset by this run. */
  method RunChain(hs: seq<Handler>, event: Value) returns (response: Value)
    requires Distinct(hs)
    modifies hs
    ensures response == ChainResponse(hs, event)
    ensures forall i :: 0 <= i < |hs| ==>
      hs[i].stopped == if i < Ran(hs, event) then StopRequested(hs[i].block, event) else old(hs[i].stopped)
  {
    ghost var n := Ran(hs, event);
    response := Null;
    var i := 0;
    var stop := false;
    while i < |hs| && !stop
      invariant 0 <= i <= n
      invariant !stop ==> forall j :: 0 <= j < i ==> !StopRequested(hs[j].block, event)
      invariant stop ==> i == n
      invariant i == 0 ==> response == Null
      invariant i > 0 ==> response == HandlerResponse(hs[i - 1].block, event)
      invariant forall j :: 0 <= j < i ==> hs[j].stopped == StopRequested(hs[j].block, event)
      invariant forall j :: i <= j < |hs| ==> hs[j].stopped == old(hs[j].stopped)
    {
      RanAt(hs, event, i);
      var h := hs[i];
      response := h.Run(event);
      stop := h.IsStopped();
      i := i + 1;
    }
  }

  // ---------------------------------------------------------------------------
  // Scenarios
  // ---------------------------------------------------------------------------

  /** Loading `handlers/sample.rb`: two `:event` handlers register; the
      `:nonslack` registration raises `NoMethodError`, which ends the load,
      so nothing after it registers. */
  method LoadSample(debug: Block, diagnostics: Block, nonslack: Block) returns (reg: Registry, r: Outcome<()>)
    ensures reg.Valid() && reg.HasCategories()
    ensures r == Raised("NoMethodError")
    ensures var t := reg.table.value;
      t["action"] == [] && t["command"] == [] && t["menu"] == [] && |t["event"]| == 2 &&
      t["event"][0].name == Some("DEBUG") && t["event"][0].block == Some(debug) &&
      t["event"][1].name == Some("Request - diagnostics") && t["event"][1].block == Some(diagnostics)
    ensures fresh(reg) && fresh(reg.table.value["event"][0]) && fresh(reg.table.value["event"][1])
  {
    reg := new Registry();
    var r1 := reg.Add("event", Some("DEBUG"), Some(debug));
    var r2 := reg.Add("event", Some("Request - diagnostics"), Some(diagnostics));
    r := reg.Add("nonslack", Some("DEBUG"), Some(nonslack));
  }

  /** After that load, an event runs both sample handlers (the first never
      stops), so the answer is the diagnostics handler's; a slash-command
      chain is empty and answers nil. */
  method RunSample(debug: Block, diagnostics: Block, nonslack: Block, event: Value)
    returns (eventAnswer: Outcome<Value>, commandAnswer: Outcome<Value>)
    requires !debug(event).stopCalled
    ensures eventAnswer == Returned(HandlerResponse(Some(diagnostics), event))
    ensures commandAnswer == Returned(Null)
  {
    var reg, loaded := LoadSample(debug, diagnostics, nonslack);
    eventAnswer := reg.Run("event", event);
    commandAnswer := reg.Run("command", event);
  }

  /** A `stop` left over from an earlier run does not end a later chain:
      `run` clears the flag before calling the block. */
  method StaleStopIgnored(first: Block, second: Block, event: Value) returns (r: Outcome<Value>)
    requires !first(event).stopCalled
    ensures r == Returned(HandlerResponse(Some(second), event))
  {
    var reg := new Registry();
    var r1 := reg.Add("event", None, Some(first));
    var r2 := reg.Add("event", None, Some(second));
    var h := reg.table.value["event"][0];
    h.Stop();
    r := reg.Run("event", event);
  }
}
