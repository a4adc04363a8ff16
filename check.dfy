/** The check engine of lib/pedant/check.rb: check descriptors and their
    readiness against a knowledge base, the registry of check classes, the
    human-readable check name, and one check instance with its verdict and
    report buffer. The scheduling loop is in module Scheduler. */
module CheckEngine {
  import opened Wrappers
  import opened Strings

  /** A knowledge-base key (a Ruby symbol, by its name). Only key presence
      matters to the engine, so a knowledge base is the set of its keys. */
  type Key = string

  /** The symbols a check's verdict can hold. `Fatal` is the symbol `:fatal`
      that the scheduler compares against; no verdict setter writes it. */
  datatype Status = Died | Fail | Pass | Skip | Warn | Void | Fatal

  /** The status tag printed by the renderer, without colour. A symbol
      missing from the table interpolates as the empty string. */
  function Tag(s: Status): string
  {
    match s
    case Died => "DIED"
    case Fail => "FAIL"
    case Pass => "PASS"
    case Skip => "SKIP"
    case Warn => "WARN"
    case Void => "VOID"
    case Fatal => ""
  }

  /** Report severities, most severe first. */
  datatype Level = Error | Warning | Info

  /** The position of a level in the severity list `[:error, :warn, :info]`. */
  function LevelIndex(l: Level): nat
  {
    match l
    case Error => 0
    case Warning => 1
    case Info => 2
  }

  /** The level a symbol names, or None when the severity list does not hold it. */
  function LevelNamed(name: string): (r: Option<Level>)
    ensures r.Some? <==> name in ["error", "warn", "info"]
  {
    if name == "error" then Some(Error)
    else if name == "warn" then Some(Warning)
    else if name == "info" then Some(Info)
    else None
  }

  /** One buffered report line. */
  datatype Entry = Entry(level: Level, text: string)

  /** What running a check leaves behind, taken as given: its verdict and the
      knowledge-base keys its run adds. */
  datatype Outcome = Outcome(result: Status, adds: set<Key>)

  /** A check class: its name, the keys it requires and provides, and the
      outcome of its run. */
  datatype CheckClass = CheckClass(name: string, required: seq<Key>, provided: seq<Key>, run: Outcome)

  /** The base class requires nothing; subclasses extend the list. (It
      provides nothing either: each class's `provided` list is its own.) */
  const BaseRequires: seq<Key> := []

  // ---------------------------------------------------------------------
  // Readiness

  /** The `reduce(true)` over the required keys: a running conjunction of
      "the knowledge base has this key". */
  function ReduceHasKeys(kb: set<Key>, reqs: seq<Key>, stat: bool): bool
  {
    if reqs == [] then stat
    else ReduceHasKeys(kb, reqs[1..], stat && reqs[0] in kb)
  }

  /** `ready?`: whether a check can run against knowledge base `kb`. */
  predicate Ready(kb: set<Key>, cls: CheckClass)
  {
    ReduceHasKeys(kb, cls.required, true)
  }

  lemma {:induction false} ReduceHasKeysAll(kb: set<Key>, reqs: seq<Key>, stat: bool)
    ensures ReduceHasKeys(kb, reqs, stat) <==> stat && forall k :: k in reqs ==> k in kb
  {
    if reqs != [] {
      ReduceHasKeysAll(kb, reqs[1..], stat && reqs[0] in kb);
      assert forall k :: k in reqs <==> k == reqs[0] || k in reqs[1..];
    }
  }

  /** A check is ready exactly when every key it requires is in the knowledge
      base; so a check requiring nothing is always ready. */
  lemma {:induction false} ReadyIffRequiresPresent(kb: set<Key>, cls: CheckClass)
    ensures Ready(kb, cls) <==> forall k :: k in cls.required ==> k in kb
    ensures cls.required == [] ==> Ready(kb, cls)
  {
    ReduceHasKeysAll(kb, cls.required, true);
  }

  /** The requirements of a check that reads the parsed files, the
      socket-leak and octal-integer checks among them: the base list plus
      the `trees` key. */
  const TreesRequired: seq<Key> := BaseRequires + ["trees"]

  /** A check class with these requirements is ready exactly when the
      knowledge base holds the parsed trees. */
  lemma ReadyIffTrees(kb: set<Key>, cls: CheckClass)
    requires cls.required == TreesRequired
    ensures Ready(kb, cls) <==> "trees" in kb
  {
    ReadyIffRequiresPresent(kb, cls);
    assert TreesRequired == ["trees"];
  }

  // ---------------------------------------------------------------------
  // Prerequisites

  /** Whether two key lists share no key. */
  predicate Disjoint(provided: seq<Key>, keys: seq<Key>)
  {
    forall k :: k in provided ==> k !in keys
  }

  /** `depends`: the registered classes, in registration order, that provide
      some key `cls` requires. Nothing excludes `cls` itself. */
  function Depends(all: seq<CheckClass>, cls: CheckClass): (r: seq<CheckClass>)
    ensures forall c :: c in r <==> c in all && !Disjoint(c.provided, cls.required)
    ensures |r| <= |all|
  {
    if all == [] then []
    else
      var rest := Depends(all[1..], cls);
      assert forall c :: c in all <==> c == all[0] || c in all[1..];
      if Disjoint(all[0].provided, cls.required) then rest else [all[0]] + rest
  }

  lemma DependsCons(all: seq<CheckClass>, cls: CheckClass)
    requires all != []
    ensures Depends(all, cls) ==
      (if Disjoint(all[0].provided, cls.required) then [] else [all[0]]) + Depends(all[1..], cls)
  {
    if Disjoint(all[0].provided, cls.required) {
      assert [] + Depends(all[1..], cls) == Depends(all[1..], cls);
    }
  }

  lemma ClassesAssoc(x: seq<CheckClass>, y: seq<CheckClass>, z: seq<CheckClass>)
    ensures x + (y + z) == (x + y) + z
  {
  }

  /** Depends keeps registration order: it distributes over concatenation. */
  lemma {:induction false} DependsAppend(a: seq<CheckClass>, b: seq<CheckClass>, cls: CheckClass)
    ensures Depends(a + b, cls) == Depends(a, cls) + Depends(b, cls)
  {
    if a != [] {
      var head := if Disjoint(a[0].provided, cls.required) then [] else [a[0]];
      var ab := a + b;
      assert ab[0] == a[0] && ab[1..] == a[1..] + b;
      DependsCons(ab, cls);
      assert Depends(ab, cls) == head + Depends(a[1..] + b, cls);
      DependsAppend(a[1..], b, cls);
      var x, y := Depends(a[1..], cls), Depends(b, cls);
      assert Depends(ab, cls) == head + (x + y);
      ClassesAssoc(head, x, y);
      DependsCons(a, cls);
      assert Depends(a, cls) == head + x;
    } else {
      assert a + b == b;
    }
  }

  /** A class that provides a key it also requires is its own prerequisite. */
  lemma {:induction false} DependsMayIncludeItself(cls: CheckClass)
    requires exists k :: k in cls.provided && k in cls.required
    ensures cls in Depends([cls], cls)
  {
  }

  // ---------------------------------------------------------------------
  // Human-readable names

  predicate HasColons(s: string)
  {
    exists i :: 0 <= i < |s| - 1 && s[i] == ':' && s[i + 1] == ':'
  }

  predicate EndsWithColons(s: string)
  {
    |s| >= 2 && s[|s| - 2] == ':' && s[|s| - 1] == ':'
  }

  /** What follows the last "::" of a one-line name (all of it when there is none). */
  function AfterLastColons(s: string): string
  {
    if EndsWithColons(s) then ""
    else if |s| == 0 then ""
    else AfterLastColons(s[..|s| - 1]) + [s[|s| - 1]]
  }

  /** What AfterLastColons keeps is a suffix free of "::"; what it drops,
      if anything, ends with "::"; it drops nothing only from a name
      without "::". */
  lemma {:induction false} AfterLastColonsSuffix(s: string)
    ensures var r := AfterLastColons(s);
      |r| <= |s| && r == s[|s| - |r|..] && !HasColons(r) &&
      (|r| < |s| ==> EndsWithColons(s[..|s| - |r|])) &&
      (|r| == |s| ==> !HasColons(s))
  {
    if EndsWithColons(s) {
      assert s[..|s|] == s;
    } else if |s| > 0 {
      var init := s[..|s| - 1];
      var c := s[|s| - 1];
      AfterLastColonsSuffix(init);
      var t := AfterLastColons(init);
      var r := t + [c];
      assert r == AfterLastColons(s);
      assert s == init + [c];
      assert r == s[|s| - |r|..];
      forall i | 0 <= i < |r| - 1 ensures !(r[i] == ':' && r[i + 1] == ':') {
        if i < |t| - 1 {
          assert t[i] == r[i] && t[i + 1] == r[i + 1];
        } else {
          assert r[i] == s[|s| - 2] && r[i + 1] == s[|s| - 1];
        }
      }
      if |r| < |s| {
        assert s[..|s| - |r|] == init[..|init| - |t|];
      }
      if |r| == |s| {
        assert r == s;
      }
    }
  }

  /** A qualified name `P::Name` whose last part has no colon gives `Name`. */
  lemma {:induction false} AfterLastColonsQualified(p: string, q: string)
    requires ':' !in q
    ensures AfterLastColons(p + "::" + q) == q
  {
    var s := p + "::" + q;
    if q != [] {
      var q' := q[..|q| - 1];
      assert s[..|s| - 1] == p + "::" + q';
      assert s[|s| - 1] == q[|q| - 1] != ':';
      AfterLastColonsQualified(p, q');
      assert q == q' + [q[|q| - 1]];
    } else {
      assert EndsWithColons(s);
    }
  }

  /** A one-line name without a leading "Check". */
  function DropCheckPrefix(s: string): string
  {
    if |s| >= 5 && s[..5] == "Check" then s[5..] else s
  }

  predicate IsCapital(c: char)
  {
    'A' <= c <= 'Z'
  }

  /** The substitution that puts a space and the run in place of every
      capital-led run: a space in front of every capital letter. */
  function SpaceCapitals(s: string): string
  {
    if s == [] then ""
    else (if IsCapital(s[0]) then [' ', s[0]] else [s[0]]) + SpaceCapitals(s[1..])
  }

  /** The characters String#strip removes. */
  predicate IsBlank(c: char)
  {
    c == ' ' || c == '\t' || c == '\n' || c == '\U{0B}' || c == '\U{0C}' || c == '\r' || c == '\0'
  }

  function StripLeft(s: string): string
  {
    if s != [] && IsBlank(s[0]) then StripLeft(s[1..]) else s
  }

  function StripRight(s: string): string
  {
    if s != [] && IsBlank(s[|s| - 1]) then StripRight(s[..|s| - 1]) else s
  }

  /** String#strip */
  function Strip(s: string): string
  {
    StripRight(StripLeft(s))
  }

  /** `friendly_name`: the class name without its module path and its leading
      "Check", split into words at the capitals. */
  function FriendlyName(className: string): string
  {
    Strip(SpaceCapitals(DropCheckPrefix(AfterLastColons(className))))
  }

  function RemoveSpaces(s: string): string
  {
    if s == [] then "" else (if s[0] == ' ' then "" else [s[0]]) + RemoveSpaces(s[1..])
  }

  predicate NoBlanks(s: string)
  {
    forall i :: 0 <= i < |s| ==> !IsBlank(s[i])
  }

  lemma {:induction false} RemoveSpacesAppend(a: string, b: string)
    ensures RemoveSpaces(a + b) == RemoveSpaces(a) + RemoveSpaces(b)
  {
    if a != [] {
      assert (a + b)[0] == a[0];
      assert (a + b)[1..] == a[1..] + b;
      RemoveSpacesAppend(a[1..], b);
    } else {
      assert a + b == b;
    }
  }

  /** SpaceCapitals only inserts spaces: removing them gives the input back. */
  lemma {:induction false} SpaceCapitalsOnlyAddsSpaces(s: string)
    requires NoBlanks(s)
    ensures RemoveSpaces(SpaceCapitals(s)) == s
  {
    if s != [] {
      SpaceCapitalsOnlyAddsSpaces(s[1..]);
      var head := if IsCapital(s[0]) then [' ', s[0]] else [s[0]];
      RemoveSpacesAppend(head, SpaceCapitals(s[1..]));
      assert [s[0]] + s[1..] == s;
      assert RemoveSpaces(head) == [s[0]];
    }
  }

  /** Every blank SpaceCapitals leaves is a space right before a capital, and
      the result does not end in a blank. */
  lemma {:induction false} SpaceCapitalsBlanksBeforeCapitals(s: string)
    requires NoBlanks(s)
    ensures var r := SpaceCapitals(s);
      (r != [] ==> !IsBlank(r[|r| - 1])) &&
      (forall i :: 0 <= i < |r| && IsBlank(r[i]) ==> r[i] == ' ' && i + 1 < |r| && IsCapital(r[i + 1]))
  {
    if s != [] {
      SpaceCapitalsBlanksBeforeCapitals(s[1..]);
      var head := if IsCapital(s[0]) then [' ', s[0]] else [s[0]];
      var rest := SpaceCapitals(s[1..]);
      var r := SpaceCapitals(s);
      assert r == head + rest;
      assert rest == [] ==> r[|r| - 1] == s[0];
      assert rest != [] ==> r[|r| - 1] == rest[|rest| - 1];
      forall i | 0 <= i < |r| && IsBlank(r[i]) ensures r[i] == ' ' && i + 1 < |r| && IsCapital(r[i + 1]) {
        if i >= |head| {
          assert r[i] == rest[i - |head|];
          assert r[i + 1] == rest[i + 1 - |head|];
        }
      }
    }
  }

  /** Every capital letter of s has a space right before it. */
  predicate CapitalsAfterSpaces(s: string)
  {
    forall i :: 0 <= i < |s| && IsCapital(s[i]) ==> i > 0 && s[i - 1] == ' '
  }

  /** In what SpaceCapitals returns, a space precedes every capital. */
  lemma {:induction false} SpaceCapitalsCapitalsAfterSpaces(s: string)
    ensures CapitalsAfterSpaces(SpaceCapitals(s))
  {
    if s != [] {
      SpaceCapitalsCapitalsAfterSpaces(s[1..]);
      var head := if IsCapital(s[0]) then [' ', s[0]] else [s[0]];
      var rest := SpaceCapitals(s[1..]);
      var r := SpaceCapitals(s);
      assert r == head + rest;
      forall i | 0 <= i < |r| && IsCapital(r[i]) ensures i > 0 && r[i - 1] == ' ' {
        if i >= |head| {
          assert r[i] == rest[i - |head|];
          if i > |head| { assert r[i - 1] == rest[i - 1 - |head|]; }
        } else {
          assert r[i] == head[i];
          if i > 0 { assert r[i - 1] == head[i - 1]; }
        }
      }
    }
  }

  /** On a string whose blanks are single spaces, each before a capital, and
      whose last character is no blank, Strip removes at most a leading space. */
  lemma {:induction false} StripSpaced(s: string)
    requires s != [] ==> !IsBlank(s[|s| - 1])
    requires forall i :: 0 <= i < |s| && IsBlank(s[i]) ==> s[i] == ' ' && i + 1 < |s| && IsCapital(s[i + 1])
    ensures Strip(s) == if s != [] && IsBlank(s[0]) then s[1..] else s
  {
    var l := if s != [] && IsBlank(s[0]) then s[1..] else s;
    if s != [] && IsBlank(s[0]) {
      assert !IsBlank(s[1]);
      assert StripLeft(s[1..]) == s[1..];
    }
    assert StripLeft(s) == l;
    assert l != [] ==> l[|l| - 1] == s[|s| - 1];
  }

  /** Friendly names are built from the name without its module path and
      its leading "Check". */
  lemma {:induction false} FriendlyNameBase(className: string)
    requires NoBlanks(className)
    ensures NoBlanks(DropCheckPrefix(AfterLastColons(className)))
  {
    AfterLastColonsSuffix(className);
  }

  /** For a class name without blanks, removing the spaces of the friendly
      name gives back the name without module path and leading "Check". */
  lemma {:induction false} FriendlyNameLetters(className: string)
    requires NoBlanks(className)
    ensures RemoveSpaces(FriendlyName(className)) == DropCheckPrefix(AfterLastColons(className))
  {
    var base := DropCheckPrefix(AfterLastColons(className));
    FriendlyNameBase(className);
    var spaced := SpaceCapitals(base);
    SpaceCapitalsOnlyAddsSpaces(base);
    SpaceCapitalsBlanksBeforeCapitals(base);
    StripSpaced(spaced);
    if spaced != [] && IsBlank(spaced[0]) {
      assert RemoveSpaces(spaced) == RemoveSpaces(spaced[1..]);
    }
  }

  /** For a class name without blanks, the friendly name has no surrounding
      blanks, every capital after its first character follows a space, and
      every blank is a single space before a capital: words start at the
      capitals and nowhere else. */
  lemma {:induction false} FriendlyNameShape(className: string)
    requires NoBlanks(className)
    ensures var r := FriendlyName(className);
      (r == [] || (!IsBlank(r[0]) && !IsBlank(r[|r| - 1]))) &&
      (forall i :: 0 < i < |r| && IsCapital(r[i]) ==> r[i - 1] == ' ') &&
      (forall i :: 0 <= i < |r| && IsBlank(r[i]) ==> r[i] == ' ' && i + 1 < |r| && IsCapital(r[i + 1]))
  {
    var base := DropCheckPrefix(AfterLastColons(className));
    FriendlyNameBase(className);
    var spaced := SpaceCapitals(base);
    SpaceCapitalsBlanksBeforeCapitals(base);
    SpaceCapitalsCapitalsAfterSpaces(base);
    StripSpaced(spaced);
    var r := FriendlyName(className);
    if spaced != [] && IsBlank(spaced[0]) {
      assert r == spaced[1..];
      assert !IsBlank(spaced[1]);
      forall i | 0 < i < |r| && IsCapital(r[i]) ensures r[i - 1] == ' ' {
        assert r[i] == spaced[i + 1] && r[i - 1] == spaced[i];
      }
      forall i | 0 <= i < |r| && IsBlank(r[i]) ensures r[i] == ' ' && i + 1 < |r| && IsCapital(r[i + 1]) {
        assert r[i] == spaced[i + 1];
        assert i + 2 < |spaced| ==> r[i + 1] == spaced[i + 2];
      }
    } else {
      assert r == spaced;
    }
  }

  lemma {:induction false} SpaceCapitalsAppend(a: string, b: string)
    ensures SpaceCapitals(a + b) == SpaceCapitals(a) + SpaceCapitals(b)
  {
    if a == [] {
      assert a + b == b;
    } else {
      assert (a + b)[0] == a[0] && (a + b)[1..] == a[1..] + b;
      SpaceCapitalsAppend(a[1..], b);
    }
  }

  /** A capital followed by lower-case letters gets one space in front. */
  lemma {:induction false} SpaceCapitalsWord(c: char, rest: string)
    requires IsCapital(c)
    requires forall i :: 0 <= i < |rest| ==> !IsCapital(rest[i])
    ensures SpaceCapitals([c] + rest) == [' ', c] + rest
  {
    assert ([c] + rest)[1..] == rest;
    SpaceCapitalsUnchanged(rest);
  }

  lemma {:induction false} SpaceCapitalsUnchanged(s: string)
    requires forall i :: 0 <= i < |s| ==> !IsCapital(s[i])
    ensures SpaceCapitals(s) == s
  {
    if s != [] {
      SpaceCapitalsUnchanged(s[1..]);
    }
  }

  lemma {:induction false} SpacedSocketLeak()
    ensures SpaceCapitals("SocketLeak") == " Socket Leak"
  {
    assert "SocketLeak" == (['S'] + "ocket") + (['L'] + "eak");
    SpaceCapitalsAppend(['S'] + "ocket", ['L'] + "eak");
    SpaceCapitalsWord('S', "ocket");
    SpaceCapitalsWord('L', "eak");
    assert [' ', 'S'] + "ocket" + ([' ', 'L'] + "eak") == " Socket Leak";
  }

  lemma {:induction false} StrippedSocketLeak()
    ensures Strip(" Socket Leak") == "Socket Leak"
  {
    assert StripLeft(" Socket Leak") == "Socket Leak";
  }

  lemma BaseOfSocketLeak()
    ensures DropCheckPrefix(AfterLastColons("Pedant::CheckSocketLeak")) == "SocketLeak"
  {
    assert "Pedant::CheckSocketLeak" == "Pedant" + "::" + "CheckSocketLeak";
    AfterLastColonsQualified("Pedant", "CheckSocketLeak");
    assert "CheckSocketLeak"[..5] == "Check" && "CheckSocketLeak"[5..] == "SocketLeak";
  }

  /** The class name of the socket-leak check becomes "Socket Leak". */
  lemma {:induction false} FriendlyNameOfSocketLeak()
    ensures FriendlyName("Pedant::CheckSocketLeak") == "Socket Leak"
  {
    BaseOfSocketLeak();
    SpacedSocketLeak();
    StrippedSocketLeak();
  }

  function FriendlyNames(all: seq<CheckClass>): seq<string>
  {
    seq(|all|, i requires 0 <= i < |all| => FriendlyName(all[i].name))
  }

  // ---------------------------------------------------------------------
  // The registry of check classes

  /** `Check.all`, filled by the `inherited` hook as check classes load. */
  class CheckRegistry {
    var all: seq<CheckClass>

    constructor ()
      ensures all == []
    {
      all := [];
    }

    /** `inherited`: registers a new subclass at the end. */
    method Inherited(cls: CheckClass)
      modifies this
      ensures all == old(all) + [cls]
    {
      all := all + [cls];
    }

    /** `Check.list`: the friendly names of all registered checks, sorted. */
    function List(): (r: seq<string>)
      reads this
      ensures Sorted(r)
      ensures multiset(r) == multiset(FriendlyNames(all))
    {
      Sort(FriendlyNames(all))
    }
  }

  // ---------------------------------------------------------------------
  // Rendering a report

  /** The level argument of the renderer: a symbol, or an index used as is. */
  datatype LevelArg = Symbol(name: string) | Index(i: int)

  /** The severity index a level argument stands for (None for an unknown symbol). */
  function Threshold(level: LevelArg): Option<int>
  {
    match level
    case Symbol(name) => if LevelNamed(name).Some? then Some(LevelIndex(LevelNamed(name).value)) else None
    case Index(i) => Some(i)
  }

  /** The texts of the entries at or below severity index `t`, in order. */
  function Selected(report: seq<Entry>, t: int): (r: seq<string>)
    ensures |r| <= |report|
  {
    if report == [] then []
    else (if LevelIndex(report[0].level) <= t then [report[0].text] else []) + Selected(report[1..], t)
  }

  function Texts(report: seq<Entry>): seq<string>
  {
    if report == [] then [] else [report[0].text] + Texts(report[1..])
  }

  /** Selection keeps buffer order: it distributes over concatenation. */
  lemma {:induction false} SelectedAppend(a: seq<Entry>, b: seq<Entry>, t: int)
    ensures Selected(a + b, t) == Selected(a, t) + Selected(b, t)
  {
    if a != [] {
      assert (a + b)[0] == a[0];
      assert (a + b)[1..] == a[1..] + b;
      SelectedAppend(a[1..], b, t);
    } else {
      assert a + b == b;
    }
  }

  /** At the least severe level every line is kept; below the most severe
      level none is. */
  lemma {:induction false} SelectedExtremes(report: seq<Entry>, t: int)
    ensures t >= 2 ==> Selected(report, t) == Texts(report)
    ensures t < 0 ==> Selected(report, t) == []
  {
    if report != [] { SelectedExtremes(report[1..], t); }
  }

  /** The joined lines plus a final newline, unless the join is empty. */
  function Body(lines: seq<string>): string
  {
    var msg := Join(lines, "\n");
    if msg == "" then "" else msg + "\n"
  }

  function Header(result: Status, className: string): string
  {
    "[" + Tag(result) + "] " + FriendlyName(className) + "\n"
  }

  lemma {:induction false} JoinAppendEmpty(xs: seq<string>, sep: string)
    requires |xs| >= 1
    ensures Join(xs + [""], sep) == Join(xs, sep) + sep
  {
    if |xs| > 1 {
      assert (xs + [""])[1..] == xs[1..] + [""];
      JoinAppendEmpty(xs[1..], sep);
    } else {
      assert (xs + [""])[1..] == [""];
    }
  }

  /** Reading the body back line by line gives the selected texts, as long as
      none of them holds a newline. */
  lemma {:induction false} BodyLines(lines: seq<string>)
    requires forall i :: 0 <= i < |lines| ==> '\n' !in lines[i]
    ensures Split(Body(lines), '\n') == if Join(lines, "\n") == "" then [""] else lines + [""]
  {
    if Join(lines, "\n") != "" {
      assert |lines| >= 1;
      JoinAppendEmpty(lines, "\n");
      SplitJoin(lines + [""], '\n');
    }
  }

  // ---------------------------------------------------------------------
  // A check instance

  /** One run of one check: its verdict and its report buffer. */
  class Check {
    const className: string
    var result: Status
    var report: seq<Entry>

    /** `initialize`: an empty buffer and no verdict yet. */
    constructor (className: string)
      ensures this.className == className
      ensures result == Status.Void && report == []
    {
      this.className := className;
      result := Status.Void;
      report := [];
    }

    /** `report(level, text)`: appends one line, or fails (the source raises)
        when the level is not a known severity. */
    method Report(level: string, text: string) returns (ok: bool)
      modifies this`report
      ensures ok <==> level in ["error", "warn", "info"]
      ensures ok ==> report == old(report) + [Entry(LevelNamed(level).value, text)]
      ensures !ok ==> report == old(report)
    {
      var l := LevelNamed(level);
      if l.None? {
        return false;
      }
      report := report + [Entry(l.value, text)];
      return true;
    }

    /** `report(level)`: the status tag and friendly name, then the texts at
        or below the level. An unknown symbol fails as soon as a buffered line
        is compared with it, so only when the buffer is not empty. */
    function Render(level: LevelArg): (r: Option<string>)
      reads this
      ensures r.None? <==> Threshold(level).None? && report != []
      ensures r.Some? ==> |r.value| >= |Header(result, className)|
      ensures r.Some? ==> r.value[..|Header(result, className)|] == Header(result, className)
      ensures r.Some? && Threshold(level).Some? ==>
        r.value[|Header(result, className)|..] == Body(Selected(report, Threshold(level).value))
      ensures r.Some? && Threshold(level).None? ==> r.value == Header(result, className)
    {
      match Threshold(level)
      case None => if report == [] then Some(Header(result, className)) else None
      case Some(t) =>
        var h := Header(result, className);
        var s := h + Body(Selected(report, t));
        assert s[..|h|] == h && s[|h|..] == Body(Selected(report, t));
        Some(s)
    }

    /** `fail` */
    method Fail()
      modifies this`result
      ensures result == Status.Fail
    {
      result := Status.Fail;
    }

    /** `fatal`: an error line, then the verdict `died`. */
    method Fatal()
      modifies this
      ensures result == Status.Died
      ensures report == old(report) + [Entry(Error, "This is a fatal error.")]
    {
      var _ := Report("error", "This is a fatal error.");
      result := Status.Died;
    }

    /** `pass` */
    method Pass()
      modifies this`result
      ensures result == Status.Pass
    {
      result := Status.Pass;
    }

    /** `skip` */
    method Skip()
      modifies this`result
      ensures result == Status.Skip
    {
      result := Status.Skip;
    }

    /** `warn` */
    method Warn()
      modifies this`result
      ensures result == Status.Warn
    {
      result := Status.Warn;
    }
  }

  /** The example of filtering at `warn`: the error and warn lines, in order. */
  lemma {:induction false} RenderAtWarnExample()
    ensures Body(Selected([Entry(Error, "x"), Entry(Warning, "y"), Entry(Info, "z")], 1)) == "x\ny\n"
  {
    var rep := [Entry(Error, "x"), Entry(Warning, "y"), Entry(Info, "z")];
    assert rep[1..] == [Entry(Warning, "y"), Entry(Info, "z")];
    assert rep[1..][1..] == [Entry(Info, "z")];
    assert Selected(rep, 1) == ["x", "y"];
    assert Join(["x", "y"], "\n") == "x\ny";
  }
}
