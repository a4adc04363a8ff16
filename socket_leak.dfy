/** The socket-leak check of lib/pedant/checks/socket_leak.rb.

    The check walks the statements of a NASL file, threading the names of
    variables that hold a socket opened and not yet closed. Leaving through
    `break`, `continue`, `exit` or `audit` while such a name is tracked, or
    ending the file with one, turns the verdict to `warn` and adds one warn
    line naming the handles.

    The walk itself only passes the tracked names along, so it is modelled by
    pure functions returning the names and the sequence of effects on the
    check (a leak report, or a reset of the verdict to `pass`). The methods
    that perform the walk on a check instance are proved against them. */
module SocketLeak {
  import opened Strings
  import opened Wrappers
  import opened CheckEngine

  // ---------------------------------------------------------------------
  // The part of the NASL syntax tree the walk looks at

  /** A right-hand side: a variable, a call (by the called name), or anything else. */
  datatype Expr = LvalueExpr(name: string) | CallExpr(callee: string) | OtherExpr

  /** The left-hand side of an assignment. */
  datatype Target = LvalueTarget(name: string) | IdentifierTarget(name: string) | OtherTarget

  /** An entry of a `local_var` declaration. */
  datatype LocalItem = LocalAssignment(target: Target, value: Expr) | LocalDeclaration(name: string)

  /** The condition of an `if`: a unary or binary expression, or anything else. */
  datatype Cond = Expression(op: string, rhs: Expr) | OtherCond

  /** A branch of an `if`: missing, one statement, or a list of statements. */
  datatype Branch = Absent | Single(stmt: Stmt) | Many(stmts: seq<Stmt>)

  datatype Stmt =
    | Assignment(target: Target, value: Expr)
    | Local(items: seq<LocalItem>)
    | Return(value: Expr)
    | Break
    | Continue
    | Call(callee: string, args: seq<Expr>)
    | If(cond: Cond, whenTrue: Branch, whenFalse: Branch)
    | Block(body: seq<Stmt>)
    | Function(name: string, body: seq<Stmt>)
      /** Every other statement (loops, for instance), with the statements nested in it. */
    | Other(children: seq<Stmt>)

  const OpenCalls: seq<string> := ["open_sock_tcp", "http_open_socket"]
  const CloseCalls: seq<string> := ["close", "ftp_close", "http_close_socket", "smtp_close"]
  const ExitCalls: seq<string> := ["exit", "audit"]
  const PassCalls: seq<string> := ["session_init", "ssh_close_connection"]
  /** Globals whose handling the walk cannot follow, so they are never tracked. */
  const Untracked: seq<string> := ["g_sock", "_ssh_socket"]

  // ---------------------------------------------------------------------
  // The tracked names: a Ruby Set, which keeps insertion order

  predicate Distinct(s: seq<string>)
  {
    forall i, j :: 0 <= i < j < |s| ==> s[i] != s[j]
  }

  /** Adding a handle to the tracked set (no effect when already there). */
  function Add(found: seq<string>, name: string): (r: seq<string>)
    ensures forall x :: x in r <==> x in found || x == name
    ensures Distinct(found) ==> Distinct(r)
    ensures name in found ==> r == found
    ensures name !in found ==> r == found + [name]
  {
    if name in found then found else found + [name]
  }

  /** The tracked set without `name`. */
  function Remove(found: seq<string>, name: string): (r: seq<string>)
    ensures forall x :: x in r <==> x in found && x != name
    ensures Distinct(found) ==> Distinct(r)
    ensures |r| <= |found|
  {
    if found == [] then []
    else
      var rest := Remove(found[1..], name);
      assert forall x :: x in found <==> x == found[0] || x in found[1..];
      if found[0] == name then rest
      else
        assert Distinct(found) ==> found[0] !in rest;
        [found[0]] + rest
  }

  /** Removal keeps the order of the other names: removing from a
      concatenation removes from each part. */
  lemma {:induction false} RemoveAppend(a: seq<string>, b: seq<string>, name: string)
    ensures Remove(a + b, name) == Remove(a, name) + Remove(b, name)
    ensures Remove([name], name) == []
    ensures forall x :: x != name ==> Remove([x], name) == [x]
  {
    if a != [] {
      assert (a + b)[0] == a[0] && (a + b)[1..] == a[1..] + b;
      RemoveAppend(a[1..], b, name);
    } else {
      assert a + b == b;
    }
  }

  /** The names of `found` that are not in `all`, in the order of `found`. */
  function Unseen(found: seq<string>, all: seq<string>): (r: seq<string>)
    ensures forall x :: x in r <==> x in found && x !in all
  {
    if found == [] then []
    else
      assert forall x :: x in found <==> x == found[0] || x in found[1..];
      (if found[0] in all then [] else [found[0]]) + Unseen(found[1..], all)
  }

  /** The union of two tracked sets, the handles of `all` first. */
  function Merge(all: seq<string>, found: seq<string>): (r: seq<string>)
    ensures forall x :: x in r <==> x in all || x in found
    ensures Distinct(all) ==> Distinct(r)
  {
    if found == [] then all
    else
      assert forall x :: x in found <==> x in found[..|found| - 1] || x == found[|found| - 1];
      Add(Merge(all, found[..|found| - 1]), found[|found| - 1])
  }

  lemma {:induction false} UnseenSnoc(found: seq<string>, x: string, all: seq<string>)
    ensures Unseen(found + [x], all) == Unseen(found, all) + (if x in all then [] else [x])
  {
    if found == [] {
      assert [] + [x] == [x];
      assert Unseen([x], all) == (if x in all then [] else [x]) + Unseen([], all);
    } else {
      var head := if found[0] in all then [] else [found[0]];
      var fx := found + [x];
      assert fx[0] == found[0] && fx[1..] == found[1..] + [x];
      assert Unseen(fx, all) == head + Unseen(found[1..] + [x], all);
      UnseenSnoc(found[1..], x, all);
      var u, t := Unseen(found[1..], all), if x in all then [] else [x];
      assert Unseen(fx, all) == head + (u + t);
      assert Unseen(found, all) == head + u;
      assert head + (u + t) == (head + u) + t;
    }
  }

  /** Merging keeps the names of `all` first, in their order, then appends
      the new names of a set `found`, in the order of `found`. */
  lemma {:induction false} MergeOrder(all: seq<string>, found: seq<string>)
    requires Distinct(found)
    ensures Merge(all, found) == all + Unseen(found, all)
  {
    if found == [] {
      assert all + [] == all;
    } else {
      var init := found[..|found| - 1];
      var x := found[|found| - 1];
      assert found == init + [x];
      assert x !in init;
      MergeOrder(all, init);
      UnseenSnoc(init, x, all);
      if x !in all {
        assert x !in all + Unseen(init, all);
        assert (all + Unseen(init, all)) + [x] == all + (Unseen(init, all) + [x]);
      } else {
        assert Unseen(init, all) + [] == Unseen(init, all);
      }
    }
  }

  // ---------------------------------------------------------------------
  // Effects of the walk on the check

  datatype Event =
      /** `report_findings` on a non-empty set: `warn`, then one warn line. */
      Leak(names: seq<string>)
      /** `pass`, called on `session_init` and `ssh_close_connection`. */
    | Reset

  /** The result of walking a statement: the names still tracked, and the
      effects on the check, in order. */
  datatype Walk = Walk(found: seq<string>, events: seq<Event>)

  /** `report_findings(found)`: nothing when the set is empty. */
  function Exit(found: seq<string>): seq<Event>
  {
    if |found| > 0 then [Leak(found)] else []
  }

  const FindingsPrefix: string := "Possibly leaked socket handle(s): "

  /** How a handle is shown: the anonymous marker as `<unassigned>`. */
  function Display(handle: string): (r: string)
    ensures |r| > 0
    ensures handle != "" ==> r == handle
  {
    if handle == "" then "<unassigned>" else handle
  }

  function Displayed(names: seq<string>): (r: seq<string>)
    ensures |r| == |names|
    ensures forall i :: 0 <= i < |names| ==> r[i] == Display(names[i])
  {
    if names == [] then [] else Displayed(names[..|names| - 1]) + [Display(names[|names| - 1])]
  }

  /** The warn line naming the leaked handles. */
  function FindingsText(names: seq<string>): string
  {
    FindingsPrefix + Join(Displayed(names), ", ")
  }

  /** The verdict after the effects: the last one decides. */
  function Verdict(start: Status, events: seq<Event>): (r: Status)
    ensures events == [] ==> r == start
    ensures events != [] ==> (r == Status.Warn <==> events[|events| - 1].Leak?)
    ensures events != [] ==> (r == Status.Pass <==> events[|events| - 1].Reset?)
  {
    if events == [] then start
    else if events[|events| - 1].Leak? then Status.Warn
    else Status.Pass
  }

  /** The report lines the effects append. */
  function Lines(events: seq<Event>): (r: seq<Entry>)
    ensures |r| <= |events|
  {
    if events == [] then []
    else
      Lines(events[..|events| - 1]) +
      match events[|events| - 1]
      case Leak(names) => [Entry(Warning, FindingsText(names))]
      case Reset => []
  }

  /** The check instance shows the effects `events` applied from the verdict
      `result0` and the buffer `report0`. */
  predicate Applied(chk: Check, result0: Status, report0: seq<Entry>, events: seq<Event>)
    reads chk
  {
    chk.result == Verdict(result0, events) && chk.report == report0 + Lines(events)
  }

  lemma {:induction false} LinesAppend(a: seq<Event>, b: seq<Event>)
    ensures Lines(a + b) == Lines(a) + Lines(b)
    decreases |b|
  {
    if b == [] {
      assert a + b == a;
    } else {
      var ab := a + b;
      assert ab[..|ab| - 1] == a + b[..|b| - 1];
      assert ab[|ab| - 1] == b[|b| - 1];
      LinesAppend(a, b[..|b| - 1]);
    }
  }

  /** Applying `a` and then `b` is applying `a + b`. */
  lemma {:induction false} AppliedAppend(chk: Check, result0: Status, report0: seq<Entry>, a: seq<Event>, b: seq<Event>)
    requires Applied(chk, Verdict(result0, a), report0 + Lines(a), b)
    ensures Applied(chk, result0, report0, a + b)
  {
    LinesAppend(a, b);
    if b != [] {
      assert (a + b)[|a + b| - 1] == b[|b| - 1];
    } else {
      assert a + b == a;
    }
  }

  // ---------------------------------------------------------------------
  // The walk, as functions

  predicate OpensSocket(e: Expr)
  {
    e.CallExpr? && e.callee in OpenCalls
  }

  /** The name an assignment binds: only a plain variable has one. */
  function AssignedName(t: Target): string
  {
    if t.LvalueTarget? then t.name else ""
  }

  /** The name a `local_var` initializer binds. */
  function LocalName(t: Target): string
  {
    match t
    case LvalueTarget(name) => name
    case IdentifierTarget(name) => name
    case OtherTarget => ""
  }

  /** Binding `name` to `value`: tracked when `value` opens a socket and the
      name is not one of the untracked globals. */
  function Bind(found: seq<string>, name: string, value: Expr): seq<string>
  {
    if OpensSocket(value) && name !in Untracked then Add(found, name) else found
  }

  /** The `bnode.idents.each` loop over a `local_var` declaration. */
  function LocalWalk(items: seq<LocalItem>, found: seq<string>): seq<string>
  {
    if items == [] then found
    else
      var before := LocalWalk(items[..|items| - 1], found);
      match items[|items| - 1]
      case LocalAssignment(t, v) => Bind(before, LocalName(t), v)
      case LocalDeclaration(_) => before
  }

  /** `if (!x)` with `x` tracked: the path on which the socket failed to open. */
  predicate Guarded(cond: Cond, found: seq<string>)
  {
    cond.Expression? && cond.rhs.LvalueExpr? && cond.op == "!" && cond.rhs.name in found
  }

  /** The effects of `node_parser` on one statement. */
  function NodeWalk(node: Stmt, found: seq<string>): (w: Walk)
    ensures Distinct(found) ==> Distinct(w.found)
    ensures forall x :: x in w.found ==> x in found || x in Opened(node)
    ensures forall x :: x in found && x !in Closed(node) ==> x in w.found
    ensures LeaksWithin(w.events, found, Opened(node))
    decreases node
  {
    match node
    case Assignment(t, v) => Walk(Bind(found, AssignedName(t), v), [])
    case Local(items) =>
      LocalWalkOpened(items, found);
      Walk(LocalWalk(items, found), [])
    case Return(v) => Walk(if v.LvalueExpr? then Remove(found, v.name) else found, [])
    case Break => Walk(found, Exit(found))
    case Continue => Walk(found, Exit(found))
    case Call(callee, args) =>
      if callee in ExitCalls then Walk(found, Exit(found))
      else if callee in OpenCalls then Walk(Add(found, ""), [])
      else if callee in CloseCalls then
        Walk(if |args| > 0 && args[0].LvalueExpr? then Remove(found, args[0].name) else found, [])
      else if callee in PassCalls then Walk(found, [Reset])
      else Walk(found, [])
    case If(cond, t, f) =>
      if Guarded(cond, found) then Walk(found, [])
      else
        var a := BranchWalk(t, found);
        var b := BranchWalk(f, a.found);
        LeaksWithinWeaken(a.events, found, BranchOpened(t), Opened(node));
        LeaksWithinAfter(b.events, a.found, BranchOpened(f), found, Opened(node));
        LeaksWithinAppend(a.events, b.events, found, Opened(node));
        Walk(b.found, a.events + b.events)
    case Block(body) => BlockWalk(body, found)
    case Function(_, _) => Walk(found, [])
    case Other(_) => Walk(found, [])
  }

  /** The `is_a?(Enumerable)` dispatch on a branch of an `if`; a missing
      branch (nil) changes nothing. */
  function BranchWalk(b: Branch, found: seq<string>): (w: Walk)
    ensures Distinct(found) ==> Distinct(w.found)
    ensures forall x :: x in w.found ==> x in found || x in BranchOpened(b)
    ensures forall x :: x in found && x !in BranchClosed(b) ==> x in w.found
    ensures LeaksWithin(w.events, found, BranchOpened(b))
    decreases b
  {
    match b
    case Absent => Walk(found, [])
    case Single(s) => NodeWalk(s, found)
    case Many(stmts) => BlockWalk(stmts, found)
  }

  /** `block_parser`: `node_parser` over the statements, in order. */
  function BlockWalk(stmts: seq<Stmt>, found: seq<string>): (w: Walk)
    ensures Distinct(found) ==> Distinct(w.found)
    ensures forall x :: x in w.found ==> x in found || x in BlockOpened(stmts)
    ensures forall x :: x in found && x !in BlockClosed(stmts) ==> x in w.found
    ensures LeaksWithin(w.events, found, BlockOpened(stmts))
    decreases stmts
  {
    if stmts == [] then Walk(found, [])
    else
      var last := stmts[|stmts| - 1];
      var a := BlockWalk(stmts[..|stmts| - 1], found);
      var b := NodeWalk(last, a.found);
      LeaksWithinWeaken(a.events, found, BlockOpened(stmts[..|stmts| - 1]), BlockOpened(stmts));
      LeaksWithinAfter(b.events, a.found, Opened(last), found, BlockOpened(stmts));
      LeaksWithinAppend(a.events, b.events, found, BlockOpened(stmts));
      Walk(b.found, a.events + b.events)
  }

  // ---------------------------------------------------------------------
  // Reference sets: the names a walked statement can open or close

  /** The names a walked statement can start tracking ("" for an anonymous socket). */
  function Opened(node: Stmt): set<string>
    decreases node
  {
    match node
    case Assignment(t, v) =>
      if OpensSocket(v) && AssignedName(t) !in Untracked then {AssignedName(t)} else {}
    case Local(items) => LocalOpened(items)
    case Call(callee, _) => if callee !in ExitCalls && callee in OpenCalls then {""} else {}
    case If(_, t, f) => BranchOpened(t) + BranchOpened(f)
    case Block(body) => BlockOpened(body)
    case _ => {}
  }

  function BranchOpened(b: Branch): set<string>
    decreases b
  {
    match b
    case Absent => {}
    case Single(s) => Opened(s)
    case Many(stmts) => BlockOpened(stmts)
  }

  function BlockOpened(stmts: seq<Stmt>): set<string>
    decreases stmts
  {
    if stmts == [] then {}
    else BlockOpened(stmts[..|stmts| - 1]) + Opened(stmts[|stmts| - 1])
  }

  function LocalOpened(items: seq<LocalItem>): set<string>
  {
    if items == [] then {}
    else
      LocalOpened(items[..|items| - 1]) +
      match items[|items| - 1]
      case LocalAssignment(t, v) =>
        if OpensSocket(v) && LocalName(t) !in Untracked then {LocalName(t)} else {}
      case LocalDeclaration(_) => {}
  }

  /** The names a walked statement can stop tracking. */
  function Closed(node: Stmt): set<string>
    decreases node
  {
    match node
    case Return(v) => if v.LvalueExpr? then {v.name} else {}
    case Call(callee, args) =>
      if callee !in ExitCalls && callee !in OpenCalls && callee in CloseCalls &&
         |args| > 0 && args[0].LvalueExpr?
      then {args[0].name} else {}
    case If(_, t, f) => BranchClosed(t) + BranchClosed(f)
    case Block(body) => BlockClosed(body)
    case _ => {}
  }

  function BranchClosed(b: Branch): set<string>
    decreases b
  {
    match b
    case Absent => {}
    case Single(s) => Closed(s)
    case Many(stmts) => BlockClosed(stmts)
  }

  function BlockClosed(stmts: seq<Stmt>): set<string>
    decreases stmts
  {
    if stmts == [] then {}
    else BlockClosed(stmts[..|stmts| - 1]) + Closed(stmts[|stmts| - 1])
  }

  /** Every leak report in `events` names at least one handle, and only
      handles tracked on entry (`found`) or opened on the way (`opens`). */
  predicate LeaksWithin(events: seq<Event>, found: seq<string>, opens: set<string>)
  {
    forall i :: 0 <= i < |events| && events[i].Leak? ==>
      events[i].names != [] && forall x :: x in events[i].names ==> x in found || x in opens
  }

  lemma {:induction false} LeaksWithinWeaken(events: seq<Event>, found: seq<string>, opens: set<string>, opens': set<string>)
    requires LeaksWithin(events, found, opens) && opens <= opens'
    ensures LeaksWithin(events, found, opens')
  {
  }

  lemma {:induction false} LeaksWithinAfter(events: seq<Event>, mid: seq<string>, opens: set<string>, found: seq<string>, opens': set<string>)
    requires LeaksWithin(events, mid, opens)
    requires forall x :: x in mid ==> x in found || x in opens'
    requires opens <= opens'
    ensures LeaksWithin(events, found, opens')
  {
  }

  lemma {:induction false} LeaksWithinAppend(a: seq<Event>, b: seq<Event>, found: seq<string>, opens: set<string>)
    requires LeaksWithin(a, found, opens) && LeaksWithin(b, found, opens)
    ensures LeaksWithin(a + b, found, opens)
  {
    forall i | 0 <= i < |a + b| && (a + b)[i].Leak?
      ensures (a + b)[i].names != [] && forall x :: x in (a + b)[i].names ==> x in found || x in opens
    {
      if i < |a| {
        assert (a + b)[i] == a[i];
      } else {
        assert (a + b)[i] == b[i - |a|];
      }
    }
  }

  lemma {:induction false} LocalWalkOpened(items: seq<LocalItem>, found: seq<string>)
    ensures Distinct(found) ==> Distinct(LocalWalk(items, found))
    ensures forall x :: x in LocalWalk(items, found) ==> x in found || x in LocalOpened(items)
    ensures forall x :: x in found || x in LocalOpened(items) ==> x in LocalWalk(items, found)
  {
    if items != [] {
      LocalWalkOpened(items[..|items| - 1], found);
    }
  }

  // ---------------------------------------------------------------------
  // The driver: every function body, then the top level, then the report

  /** `tree.all(:Function)`: the bodies of the function definitions anywhere
      in the statements, in pre-order. */
  function FunctionBodies(stmts: seq<Stmt>): seq<seq<Stmt>>
    decreases stmts
  {
    if stmts == [] then []
    else FunctionBodies(stmts[..|stmts| - 1]) + FunctionBodiesIn(stmts[|stmts| - 1])
  }

  function FunctionBodiesIn(node: Stmt): seq<seq<Stmt>>
    decreases node
  {
    match node
    case Function(_, body) => [body] + FunctionBodies(body)
    case If(_, t, f) => BranchFunctionBodies(t) + BranchFunctionBodies(f)
    case Block(body) => FunctionBodies(body)
    case Other(children) => FunctionBodies(children)
    case _ => []
  }

  function BranchFunctionBodies(b: Branch): seq<seq<Stmt>>
    decreases b
  {
    match b
    case Absent => []
    case Single(s) => FunctionBodiesIn(s)
    case Many(stmts) => FunctionBodies(stmts)
  }

  /** The `tree.all(:Function).each` loop: each body walked from an empty
      set, its leftovers merged into `allFound`. */
  function BodiesWalk(bodies: seq<seq<Stmt>>): (w: Walk)
    ensures Distinct(w.found)
    ensures forall x :: x in w.found ==> x in BodiesOpened(bodies)
    ensures LeaksWithin(w.events, [], BodiesOpened(bodies))
  {
    if bodies == [] then Walk([], [])
    else
      var a := BodiesWalk(bodies[..|bodies| - 1]);
      var b := BlockWalk(bodies[|bodies| - 1], []);
      LeaksWithinAppend(a.events, b.events, [], BodiesOpened(bodies));
      Walk(Merge(a.found, b.found), a.events + b.events)
  }

  function BodiesOpened(bodies: seq<seq<Stmt>>): set<string>
  {
    if bodies == [] then {} else BodiesOpened(bodies[..|bodies| - 1]) + BlockOpened(bodies[|bodies| - 1])
  }

  /** Every name some walked open call in the file could track. */
  function FileOpened(tree: seq<Stmt>): set<string>
  {
    BodiesOpened(FunctionBodies(tree)) + BlockOpened(tree)
  }

  /** `check(file, tree)`: the handles reported at the end of the file, and
      all the effects on the check. */
  function FileWalk(tree: seq<Stmt>): (w: Walk)
    ensures Distinct(w.found)
    ensures forall x :: x in w.found ==> x in FileOpened(tree)
    ensures LeaksWithin(w.events, [], FileOpened(tree))
  {
    var fns := BodiesWalk(FunctionBodies(tree));
    var top := BlockWalk(tree, []);
    var all := Merge(fns.found, top.found);
    LeaksWithinAppend(fns.events, top.events, [], FileOpened(tree));
    LeaksWithinAppend(fns.events + top.events, Exit(all), [], FileOpened(tree));
    Walk(all, fns.events + top.events + Exit(all))
  }

  /** The effects of `run` after its initial `pass`: each file's, in order. */
  function RunEvents(trees: seq<seq<Stmt>>): seq<Event>
  {
    if trees == [] then [] else RunEvents(trees[..|trees| - 1]) + FileWalk(trees[|trees| - 1]).events
  }

  // ---------------------------------------------------------------------
  // The walk, as performed on a check instance

  /** `report_findings(found)`: on a non-empty set, `warn`, then one warn line
      listing the handles, separated by commas. */
  method ReportFindings(chk: Check, found: seq<string>)
    modifies chk
    ensures Applied(chk, old(chk.result), old(chk.report), Exit(found))
  {
    if |found| > 0 {
      chk.Warn();
      var output := ListHandles(found);
      assert LevelNamed("warn") == Some(Warning);
      var _ := chk.Report("warn", FindingsPrefix + output);
      assert Exit(found) == [Leak(found)];
      assert Lines(Exit(found)) == Lines([]) + [Entry(Warning, FindingsText(found))];
    } else {
      assert Lines(Exit(found)) == [];
      assert chk.report == old(chk.report) + [];
    }
  }

  /** The loop of `report_findings` that builds the list of handles: each
      one in turn, after a comma once the list is not empty, with the empty
      name shown as `<unassigned>`. */
  method ListHandles(found: seq<string>) returns (output: string)
    ensures output == Join(Displayed(found), ", ")
  {
    output := "";
    var i := 0;
    while i < |found|
      invariant 0 <= i <= |found|
      invariant output == Join(Displayed(found[..i]), ", ")
      invariant output == "" <==> i == 0
    {
      JoinSnoc(Displayed(found[..i]), Display(found[i]), ", ");
      assert found[..i + 1][..i] == found[..i];
      if output != "" {
        output := output + ", ";
      }
      var handle := found[i];
      if handle == "" {
        handle := "<unassigned>";
      }
      output := output + handle;
      i := i + 1;
    }
    assert found[..|found|] == found;
  }

  lemma {:induction false} JoinSnoc(xs: seq<string>, x: string, sep: string)
    ensures Join(xs + [x], sep) == if xs == [] then x else Join(xs, sep) + sep + x
    ensures |x| > 0 ==> |Join(xs + [x], sep)| > 0
    decreases |xs|
  {
    if |xs| == 1 {
      assert xs + [x] == [xs[0], x];
      assert [xs[0], x][1..] == [x];
    } else if |xs| > 1 {
      JoinSnoc(xs[1..], x, sep);
      assert (xs + [x])[1..] == xs[1..] + [x];
    }
  }

  /** `node_parser(bnode, found)` */
  method NodeParser(chk: Check, node: Stmt, found: seq<string>) returns (r: seq<string>)
    modifies chk
    ensures r == NodeWalk(node, found).found
    ensures Applied(chk, old(chk.result), old(chk.report), NodeWalk(node, found).events)
    decreases node
  {
    match node
    case Assignment(t, v) =>
      var name := "";
      if t.LvalueTarget? {
        name := t.name;
      }
      r := found;
      if v.CallExpr? && v.callee in OpenCalls && name !in Untracked {
        r := Add(found, name);
      }
    case Local(items) =>
      r := LocalParser(items, found);
    case Return(v) =>
      r := found;
      if v.LvalueExpr? {
        r := Remove(found, v.name);
      }
    case Break =>
      ReportFindings(chk, found);
      r := found;
    case Continue =>
      ReportFindings(chk, found);
      r := found;
    case Call(callee, args) =>
      r := found;
      if callee in ExitCalls {
        ReportFindings(chk, found);
      } else if callee in OpenCalls {
        r := Add(found, "");
      } else if callee in CloseCalls {
        if |args| > 0 && args[0].LvalueExpr? {
          r := Remove(found, args[0].name);
        }
      } else if callee in PassCalls {
        chk.Pass();
      }
    case If(cond, t, f) =>
      if Guarded(cond, found) {
        return found;
      }
      var a := BranchParser(chk, t, found);
      r := BranchParser(chk, f, a);
      AppliedAppend(chk, old(chk.result), old(chk.report), BranchWalk(t, found).events, BranchWalk(f, a).events);
    case Block(body) =>
      r := BlockParser(chk, body, found);
    case Function(_, _) =>
      r := found;
    case Other(_) =>
      r := found;
  }

  /** The `local_var` case of `node_parser`: each declared name in turn, a
      name assigned an open call starting to be tracked. */
  method LocalParser(items: seq<LocalItem>, found: seq<string>) returns (r: seq<string>)
    ensures r == LocalWalk(items, found)
  {
    r := found;
    var i := 0;
    while i < |items|
      invariant 0 <= i <= |items|
      invariant r == LocalWalk(items[..i], found)
    {
      assert items[..i + 1][..i] == items[..i];
      match items[i] {
        case LocalAssignment(t, v) =>
          var name := LocalName(t);
          if v.CallExpr? && v.callee in OpenCalls && name !in Untracked {
            r := Add(r, name);
          }
        case LocalDeclaration(_) =>
      }
      i := i + 1;
    }
    assert items[..|items|] == items;
  }

  /** The branch dispatch inside the `if` case of `node_parser`. */
  method BranchParser(chk: Check, b: Branch, found: seq<string>) returns (r: seq<string>)
    modifies chk
    ensures r == BranchWalk(b, found).found
    ensures Applied(chk, old(chk.result), old(chk.report), BranchWalk(b, found).events)
    decreases b
  {
    match b
    case Absent =>
      r := found;
    case Single(s) =>
      r := NodeParser(chk, s, found);
    case Many(stmts) =>
      r := BlockParser(chk, stmts, found);
  }

  /** `block_parser(block, found)` */
  method BlockParser(chk: Check, stmts: seq<Stmt>, found: seq<string>) returns (r: seq<string>)
    modifies chk
    ensures r == BlockWalk(stmts, found).found
    ensures Applied(chk, old(chk.result), old(chk.report), BlockWalk(stmts, found).events)
    decreases stmts
  {
    r := found;
    var i := 0;
    while i < |stmts|
      invariant 0 <= i <= |stmts|
      invariant r == BlockWalk(stmts[..i], found).found
      invariant Applied(chk, old(chk.result), old(chk.report), BlockWalk(stmts[..i], found).events)
    {
      assert stmts[..i + 1][..i] == stmts[..i];
      ghost var before := BlockWalk(stmts[..i], found).events;
      r := NodeParser(chk, stmts[i], r);
      AppliedAppend(chk, old(chk.result), old(chk.report), before, NodeWalk(stmts[i], BlockWalk(stmts[..i], found).found).events);
      i := i + 1;
    }
    assert stmts[..|stmts|] == stmts;
  }

  /** `check(file, tree)` */
  method CheckFile(chk: Check, tree: seq<Stmt>)
    modifies chk
    ensures Applied(chk, old(chk.result), old(chk.report), FileWalk(tree).events)
  {
    var bodies := FunctionBodies(tree);
    var allFound := [];
    var i := 0;
    while i < |bodies|
      invariant 0 <= i <= |bodies|
      invariant allFound == BodiesWalk(bodies[..i]).found
      invariant Applied(chk, old(chk.result), old(chk.report), BodiesWalk(bodies[..i]).events)
    {
      assert bodies[..i + 1][..i] == bodies[..i];
      ghost var before := BodiesWalk(bodies[..i]).events;
      var found := BlockParser(chk, bodies[i], []);
      AppliedAppend(chk, old(chk.result), old(chk.report), before, BlockWalk(bodies[i], []).events);
      allFound := Merge(allFound, found);
      i := i + 1;
    }
    assert bodies[..|bodies|] == bodies;
    ghost var fnEvents := BodiesWalk(bodies).events;
    var found := BlockParser(chk, tree, []);
    AppliedAppend(chk, old(chk.result), old(chk.report), fnEvents, BlockWalk(tree, []).events);
    allFound := Merge(allFound, found);
    ghost var soFar := fnEvents + BlockWalk(tree, []).events;
    ReportFindings(chk, allFound);
    AppliedAppend(chk, old(chk.result), old(chk.report), soFar, Exit(allFound));
  }

  /** `run`: `pass` first, then every file's tree in turn. */
  method Run(chk: Check, trees: seq<seq<Stmt>>)
    modifies chk
    ensures Applied(chk, Status.Pass, old(chk.report), RunEvents(trees))
  {
    chk.Pass();
    var i := 0;
    while i < |trees|
      invariant 0 <= i <= |trees|
      invariant Applied(chk, Status.Pass, old(chk.report), RunEvents(trees[..i]))
    {
      assert trees[..i + 1][..i] == trees[..i];
      ghost var before := RunEvents(trees[..i]);
      CheckFile(chk, trees[i]);
      AppliedAppend(chk, Status.Pass, old(chk.report), before, FileWalk(trees[i]).events);
      i := i + 1;
    }
    assert trees[..|trees|] == trees;
  }

  // ---------------------------------------------------------------------
  // Properties of the walk

  /** A statement that nests no other: the tracked names afterwards are
      exactly those tracked before or opened by it, less those it closes;
      exit points report the tracked names, the two session calls reset the
      verdict, and nothing else has an effect. */
  lemma {:induction false} SimpleStatementEffect(node: Stmt, found: seq<string>)
    requires !node.If? && !node.Block?
    ensures var w := NodeWalk(node, found);
      (forall x :: x in w.found <==> (x in found || x in Opened(node)) && x !in Closed(node)) &&
      w.events == (if node.Break? || node.Continue? || (node.Call? && node.callee in ExitCalls) then Exit(found)
                   else if node.Call? && node.callee !in OpenCalls && node.callee !in CloseCalls && node.callee in PassCalls then [Reset]
                   else [])
  {
    if node.Local? {
      LocalWalkOpened(node.items, found);
    }
  }

  lemma BlockWalkSnoc(init: seq<Stmt>, last: Stmt, found: seq<string>)
    ensures var a := BlockWalk(init, found);
      var b := NodeWalk(last, a.found);
      BlockWalk(init + [last], found) == Walk(b.found, a.events + b.events)
  {
    var s := init + [last];
    assert s[..|s| - 1] == init && s[|s| - 1] == last;
  }

  /** `block_parser` over two stretches of statements is the walk of the
      second from where the first left off. */
  lemma {:induction false} BlockWalkAppend(a: seq<Stmt>, b: seq<Stmt>, found: seq<string>)
    ensures var first := BlockWalk(a, found);
      var second := BlockWalk(b, first.found);
      BlockWalk(a + b, found) == Walk(second.found, first.events + second.events)
    decreases |b|
  {
    var first := BlockWalk(a, found);
    if b == [] {
      assert a + b == a;
      assert first.events + [] == first.events;
    } else {
      var init := b[..|b| - 1];
      var last := b[|b| - 1];
      assert a + b == (a + init) + [last];
      assert b == init + [last];
      BlockWalkAppend(a, init, found);
      BlockWalkSnoc(a + init, last, found);
      BlockWalkSnoc(init, last, first.found);
      var mid := BlockWalk(init, first.found);
      var tail := NodeWalk(last, mid.found);
      EventsAssoc(first.events, mid.events, tail.events);
    }
  }

  lemma EventsAssoc(x: seq<Event>, y: seq<Event>, z: seq<Event>)
    ensures (x + y) + z == x + (y + z)
  {
  }

  /** A name some function body leaves behind when walked on its own. */
  predicate LeftByBody(bodies: seq<seq<Stmt>>, x: string)
  {
    exists j :: 0 <= j < |bodies| && x in BlockWalk(bodies[j], []).found
  }

  lemma {:induction false} LeftBySnoc(bodies: seq<seq<Stmt>>, x: string)
    requires bodies != []
    ensures LeftByBody(bodies, x) <==>
      LeftByBody(bodies[..|bodies| - 1], x) || x in BlockWalk(bodies[|bodies| - 1], []).found
  {
    var init := bodies[..|bodies| - 1];
    if LeftByBody(bodies, x) {
      var j :| 0 <= j < |bodies| && x in BlockWalk(bodies[j], []).found;
      if j < |init| {
        assert init[j] == bodies[j];
        assert LeftByBody(init, x);
      }
    }
    if LeftByBody(init, x) {
      var j :| 0 <= j < |init| && x in BlockWalk(init[j], []).found;
      assert bodies[j] == init[j];
      assert LeftByBody(bodies, x);
    }
    if x in BlockWalk(bodies[|bodies| - 1], []).found {
      assert LeftByBody(bodies, x);
    }
  }

  /** The names left at the end of the function bodies are those some body
      leaves behind when walked on its own. */
  lemma {:induction false} BodiesWalkFound(bodies: seq<seq<Stmt>>)
    ensures forall x :: x in BodiesWalk(bodies).found <==> LeftByBody(bodies, x)
  {
    if bodies != [] {
      BodiesWalkFound(bodies[..|bodies| - 1]);
      forall x ensures x in BodiesWalk(bodies).found <==> LeftByBody(bodies, x) {
        LeftBySnoc(bodies, x);
      }
    }
  }

  /** At the end of a file, the handles still open are reported in one warn
      line: those some function body or the top level leaves open. */
  lemma {:induction false} FileReportsLeftovers(tree: seq<Stmt>)
    ensures var w := FileWalk(tree);
      var bodies := FunctionBodies(tree);
      (forall x :: x in w.found <==> LeftByBody(bodies, x) || x in BlockWalk(tree, []).found) &&
      (w.found != [] ==> w.events[|w.events| - 1] == Leak(w.found)) &&
      (w.found == [] ==> w.events == BodiesWalk(bodies).events + BlockWalk(tree, []).events)
  {
    BodiesWalkFound(FunctionBodies(tree));
    var w := FileWalk(tree);
    var fns := BodiesWalk(FunctionBodies(tree));
    var top := BlockWalk(tree, []);
    if w.found == [] {
      assert w.events == fns.events + top.events + [];
    }
  }

  predicate NoLeaks(events: seq<Event>)
  {
    forall i :: 0 <= i < |events| ==> !events[i].Leak?
  }

  lemma {:induction false} LeakNamesFirst(events: seq<Event>, found: seq<string>, opens: set<string>, i: nat)
    requires LeaksWithin(events, found, opens)
    requires i < |events| && events[i].Leak?
    ensures events[i].names[0] in found || events[i].names[0] in opens
  {
    assert events[i].names[0] in events[i].names;
  }

  lemma {:induction false} NothingOpenedNoLeaks(events: seq<Event>)
    requires LeaksWithin(events, [], {})
    ensures NoLeaks(events)
  {
    forall i | 0 <= i < |events| ensures !events[i].Leak? {
      if events[i].Leak? {
        LeakNamesFirst(events, [], {}, i);
        assert false;
      }
    }
  }

  lemma NoLeaksAppend(a: seq<Event>, b: seq<Event>)
    requires NoLeaks(a) && NoLeaks(b)
    ensures NoLeaks(a + b)
  {
    forall i | 0 <= i < |a + b| ensures !(a + b)[i].Leak? {
      if i < |a| {
        assert (a + b)[i] == a[i];
      } else {
        assert (a + b)[i] == b[i - |a|];
      }
    }
  }

  lemma {:induction false} RunEventsNoLeaks(trees: seq<seq<Stmt>>)
    requires forall i :: 0 <= i < |trees| ==> FileOpened(trees[i]) == {}
    ensures NoLeaks(RunEvents(trees))
  {
    if trees != [] {
      var init := trees[..|trees| - 1];
      assert forall i :: 0 <= i < |init| ==> init[i] == trees[i];
      RunEventsNoLeaks(init);
      var w := FileWalk(trees[|trees| - 1]);
      NothingOpenedNoLeaks(w.events);
      NoLeaksAppend(RunEvents(init), w.events);
    }
  }

  lemma {:induction false} NoLeaksNoLines(events: seq<Event>)
    requires NoLeaks(events)
    ensures Lines(events) == []
  {
    if events != [] {
      NoLeaksNoLines(events[..|events| - 1]);
    }
  }

  /** Files in which no walked statement opens a socket pass with nothing
      reported. */
  lemma {:induction false} NoOpenCallNoWarning(trees: seq<seq<Stmt>>)
    requires forall i :: 0 <= i < |trees| ==> FileOpened(trees[i]) == {}
    ensures Verdict(Status.Pass, RunEvents(trees)) == Status.Pass
    ensures Lines(RunEvents(trees)) == []
  {
    RunEventsNoLeaks(trees);
    NoLeaksNoLines(RunEvents(trees));
  }

  /** After `run` the verdict is `pass` or `warn`, and a `warn` always comes
      with a warn line naming the handles of the last report. */
  lemma {:induction false} RunVerdictIsPassOrWarn(events: seq<Event>)
    ensures Verdict(Status.Pass, events) in {Status.Pass, Status.Warn}
    ensures Verdict(Status.Pass, events) == Status.Warn ==>
      Lines(events) != [] &&
      Lines(events)[|Lines(events)| - 1] == Entry(Warning, FindingsText(events[|events| - 1].names))
  {
  }

  // ---------------------------------------------------------------------
  // Examples

  const Sock := LvalueTarget("soc")
  const OpenSock := Assignment(Sock, CallExpr("open_sock_tcp"))
  const CloseSock := Call("close", [LvalueExpr("soc")])

  /** A handle opened and then closed is not tracked any more. */
  lemma {:induction false} OpenThenCloseTracksNothing()
    ensures BlockWalk([OpenSock, CloseSock], []) == Walk([], [])
  {
    assert [OpenSock, CloseSock][..1] == [OpenSock];
    assert [OpenSock][..0] == [];
    assert NodeWalk(OpenSock, []) == Walk(["soc"], []);
    assert BlockWalk([OpenSock], []) == Walk(["soc"], []);
    assert Remove(["soc"], "soc") == [];
  }

  /** Leaving through `exit` with an open handle reports it. */
  lemma {:induction false} ExitWithOpenSocketReports()
    ensures BlockWalk([OpenSock, Call("exit", [])], []) == Walk(["soc"], [Leak(["soc"])])
    ensures FindingsText(["soc"]) == "Possibly leaked socket handle(s): soc"
  {
    OpenSockAlone();
    BlockWalkSnoc([OpenSock], Call("exit", []), []);
    assert [OpenSock] + [Call("exit", [])] == [OpenSock, Call("exit", [])];
    ExitWalk(["soc"]);
    assert [] + [Leak(["soc"])] == [Leak(["soc"])];
    assert Displayed(["soc"]) == ["soc"];
  }

  lemma OpenSockAlone()
    ensures BlockWalk([OpenSock], []) == Walk(["soc"], [])
  {
    BlockWalkSnoc([], OpenSock, []);
    assert [] + [OpenSock] == [OpenSock];
    assert NodeWalk(OpenSock, []) == Walk(["soc"], []);
  }

  lemma ExitWalk(found: seq<string>)
    requires found != []
    ensures NodeWalk(Call("exit", []), found) == Walk(found, [Leak(found)])
  {
  }

  lemma SessionInitWalk(found: seq<string>)
    ensures NodeWalk(Call("session_init", []), found) == Walk(found, [Reset])
  {
  }

  /** An anonymous socket is shown as `<unassigned>`, at its place in the list. */
  lemma {:induction false} AnonymousSocketShown()
    ensures FindingsText(["soc", ""]) == "Possibly leaked socket handle(s): soc, <unassigned>"
  {
    assert ["soc", ""][..1] == ["soc"];
    assert Displayed(["soc", ""]) == ["soc", "<unassigned>"];
    assert Join(["soc", "<unassigned>"], ", ") == "soc" + ", " + Join(["<unassigned>"], ", ");
  }

  /** `g_sock` is never tracked. */
  lemma {:induction false} GlobalSocketUntracked()
    ensures NodeWalk(Assignment(LvalueTarget("g_sock"), CallExpr("open_sock_tcp")), []) == Walk([], [])
  {
  }

  /** In `if (!soc)` with `soc` tracked, neither branch is walked: here the
      `else` branch's `close` is skipped and the handle stays tracked. */
  lemma {:induction false} NegatedGuardSkipsBothBranches()
    ensures NodeWalk(If(Expression("!", LvalueExpr("soc")), Single(Call("exit", [])), Single(CloseSock)), ["soc"])
      == Walk(["soc"], [])
  {
  }

  /** The `else` branch is walked from what the `then` branch left: closing
      in one branch counts for the code after the `if`. */
  lemma {:induction false} BranchesWalkedOneAfterTheOther()
    ensures BlockWalk([If(OtherCond, Single(CloseSock), Absent), Call("exit", [])], ["soc"]) == Walk([], [])
  {
    var stmts := [If(OtherCond, Single(CloseSock), Absent), Call("exit", [])];
    assert stmts[..1] == [stmts[0]];
    assert stmts[..1][..0] == [];
    assert Remove(["soc"], "soc") == [];
    assert NodeWalk(stmts[0], ["soc"]) == Walk([], []);
    assert BlockWalk(stmts[..1], ["soc"]) == Walk([], []);
  }

  const IfBreak := If(OtherCond, Single(Break), Absent)

  /** A `break` alone in the true branch of an `if` reports what is tracked. */
  lemma IfBreakWalk(found: seq<string>)
    requires found != []
    ensures NodeWalk(IfBreak, found) == Walk(found, [Leak(found)])
  {
    assert !Guarded(OtherCond, found);
    var a := BranchWalk(Single(Break), found);
    assert a == NodeWalk(Break, found) == Walk(found, [Leak(found)]);
    var b := BranchWalk(Absent, a.found);
    assert b == Walk(found, []);
    assert NodeWalk(IfBreak, found) == Walk(b.found, a.events + b.events);
    assert [Leak(found)] + [] == [Leak(found)];
  }

  lemma {:induction false} ConditionalBreakReports()
    ensures BlockWalk([OpenSock, IfBreak], []) == Walk(["soc"], [Leak(["soc"])])
  {
    OpenSockAlone();
    BlockWalkSnoc([OpenSock], IfBreak, []);
    assert [OpenSock] + [IfBreak] == [OpenSock, IfBreak];
    IfBreakWalk(["soc"]);
    assert [] + [Leak(["soc"])] == [Leak(["soc"])];
  }

  lemma {:induction false} CloseThenSessionInit()
    ensures BlockWalk([CloseSock, Call("session_init", [])], ["soc"]) == Walk([], [Reset])
  {
    CloseSockAlone();
    BlockWalkSnoc([CloseSock], Call("session_init", []), ["soc"]);
    assert [CloseSock] + [Call("session_init", [])] == [CloseSock, Call("session_init", [])];
    SessionInitWalk([]);
    assert [] + [Reset] == [Reset];
  }

  lemma CloseSockAlone()
    ensures BlockWalk([CloseSock], ["soc"]) == Walk([], [])
  {
    BlockWalkSnoc([], CloseSock, ["soc"]);
    assert [] + [CloseSock] == [CloseSock];
    assert Remove(["soc"], "soc") == [];
    assert NodeWalk(CloseSock, ["soc"]) == Walk([], []);
  }

  /** A call to `session_init` after a report puts the verdict back to
      `pass`, though the warn line stays in the buffer. */
  lemma {:induction false} SessionInitClearsWarn()
    ensures var events := BlockWalk([OpenSock, IfBreak, CloseSock, Call("session_init", [])], []).events;
      events == [Leak(["soc"]), Reset] &&
      Verdict(Status.Pass, events) == Status.Pass &&
      |Lines(events)| == 1
  {
    var pre := [OpenSock, IfBreak];
    var post := [CloseSock, Call("session_init", [])];
    assert pre + post == [OpenSock, IfBreak, CloseSock, Call("session_init", [])];
    BlockWalkAppend(pre, post, []);
    ConditionalBreakReports();
    CloseThenSessionInit();
    var events := [Leak(["soc"]), Reset];
    assert events[..1] == [Leak(["soc"])];
    assert [Leak(["soc"])][..0] == [];
  }
}
