/** The octal-integer check of lib/pedant/checks/uses_octal_integers.rb.

    NASL reads an integer literal that starts with `0` and has only the
    digits 0-7 as octal, which is easy to miss. For every such literal in
    every parsed file the check turns its verdict to `warn` and adds three
    warn lines: the explanation, the decimal value, and the literal in
    context. With no octal literal anywhere the verdict stays `pass`.

    The parser is not part of this model: a parsed file is given as the
    integer nodes `tree.all(:Integer)` yields, in that order, each with the
    type of its first token, the value the parser computed, and the context
    string the parser renders for it. */
module UsesOctalIntegers {
  import opened CheckEngine

  // ---------------------------------------------------------------------
  // The parser's integer nodes

  /** The token types the NASL lexer gives integer literals. */
  datatype TokenType = IntDec | IntHex | IntOct

  /** An `Integer` node: its first token's type, its value and its context. */
  datatype IntegerNode = IntegerNode(firstToken: TokenType, value: int, context: string)

  /** A parsed file, reduced to the integer nodes of its tree, in tree order. */
  type Tree = seq<IntegerNode>

  /** One entry of the `:trees` knowledge-base item: a file name and its tree. */
  datatype ParsedFile = ParsedFile(file: string, tree: Tree)

  // ---------------------------------------------------------------------
  // Decimal rendering of the value, as string interpolation does it

  function DigitChar(d: nat): char
    requires d < 10
  {
    "0123456789"[d]
  }

  function DigitValue(c: char): nat
  {
    if '0' <= c <= '9' then (c - '0') as nat else 0
  }

  predicate AllDigits(s: string)
  {
    forall i :: 0 <= i < |s| ==> '0' <= s[i] <= '9'
  }

  /** `n / 10`, by repeated subtraction (keeps the arithmetic linear). */
  function Tenths(n: nat): (q: nat)
    ensures 10 * q <= n < 10 * q + 10
  {
    if n < 10 then 0 else 1 + Tenths(n - 10)
  }

  /** The decimal digits of a natural number, without leading zeros. */
  function Digits(n: nat): (r: string)
    ensures |r| >= 1 && AllDigits(r)
    ensures r[0] == '0' ==> n == 0
    decreases n
  {
    if n < 10 then [DigitChar(n)] else Digits(Tenths(n)) + [DigitChar(n - 10 * Tenths(n))]
  }

  /** `"#{value}"`: a minus sign for a negative value, then the digits. */
  function Decimal(value: int): string
  {
    if value < 0 then "-" + Digits(-value) else Digits(value)
  }

  /** The value of a string of decimal digits, read left to right. */
  function DigitsValue(s: string): nat
  {
    if s == [] then 0 else DigitsValue(s[..|s| - 1]) * 10 + DigitValue(s[|s| - 1])
  }

  /** Reading a (possibly signed) decimal string. */
  function ParseDecimal(s: string): int
  {
    if s != [] && s[0] == '-' then -(DigitsValue(s[1..]) as int) else DigitsValue(s)
  }

  lemma DigitCharValue(d: nat)
    requires d < 10
    ensures '0' <= DigitChar(d) <= '9' && DigitValue(DigitChar(d)) == d
  {
  }

  lemma {:induction false} DigitsValueOfDigits(n: nat)
    ensures DigitsValue(Digits(n)) == n
    decreases n
  {
    if n >= 10 {
      var q := Tenths(n);
      DigitCharValue(n - 10 * q);
      DigitsValueOfDigits(q);
      var s := Digits(n);
      assert s[..|s| - 1] == Digits(q);
    } else {
      DigitCharValue(n);
    }
  }

  /** The decimal-value line names the value exactly: reading the rendered
      digits back gives the value. */
  lemma {:induction false} DecimalRoundTrip(value: int)
    ensures ParseDecimal(Decimal(value)) == value
  {
    if value < 0 {
      DigitsValueOfDigits(-value);
      assert Decimal(value)[1..] == Digits(-value);
    } else {
      DigitsValueOfDigits(value);
    }
  }

  // ---------------------------------------------------------------------
  // What the check reports

  predicate IsOctal(i: IntegerNode)
  {
    i.firstToken == IntOct
  }

  /** `select { |i| i.tokens.first.type == :INT_OCT }`: the octal integers
      of a tree, in tree order. */
  function Octals(tree: Tree): (r: Tree)
    ensures forall i :: i in r <==> i in tree && IsOctal(i)
    ensures |r| <= |tree|
  {
    if tree == [] then []
    else
      assert forall i :: i in tree <==> i == tree[0] || i in tree[1..];
      (if IsOctal(tree[0]) then [tree[0]] else []) + Octals(tree[1..])
  }

  const Explanation := "NASL integers with all digits between 0-7 and starting with '0' are considered octal."

  function ValueLine(i: IntegerNode): string
  {
    "This integer will have decimal value '" + Decimal(i.value) + "'."
  }

  /** The three warn lines reported for one octal integer. */
  function OctalWarning(i: IntegerNode): seq<Entry>
  {
    [Entry(Level.Warning, Explanation), Entry(Level.Warning, ValueLine(i)), Entry(Level.Warning, i.context)]
  }

  /** The lines of several reports, one after the other. */
  function Flatten(groups: seq<seq<Entry>>): seq<Entry>
  {
    if groups == [] then [] else Flatten(groups[..|groups| - 1]) + groups[|groups| - 1]
  }

  /** The three lines of each of the integers `octals`, in order. */
  function Warnings(octals: Tree): (r: seq<seq<Entry>>)
    ensures |r| == |octals|
    ensures forall k :: 0 <= k < |octals| ==> r[k] == OctalWarning(octals[k])
  {
    seq(|octals|, k requires 0 <= k < |octals| => OctalWarning(octals[k]))
  }

  /** The lines reported for the integers `octals`, in order. */
  function Lines(octals: Tree): seq<Entry>
  {
    Flatten(Warnings(octals))
  }

  /** The octal integers of all files, in file order and then tree order. */
  function AllOctals(files: seq<ParsedFile>): Tree
  {
    if files == [] then [] else AllOctals(files[..|files| - 1]) + Octals(files[|files| - 1].tree)
  }

  // ---------------------------------------------------------------------
  // The check, on a check instance

  /** `check(file, tree)`: for each octal integer, `warn` and three warn lines. */
  method CheckTree(chk: Check, file: string, tree: Tree)
    modifies chk
    ensures chk.result == if Octals(tree) == [] then old(chk.result) else Status.Warn
    ensures chk.report == old(chk.report) + Lines(Octals(tree))
  {
    var octals := Octals(tree);
    var k := 0;
    while k < |octals|
      invariant 0 <= k <= |octals|
      invariant chk.result == if k == 0 then old(chk.result) else Status.Warn
      invariant chk.report == old(chk.report) + Lines(octals[..k])
    {
      LinesPrefix(octals, k);
      ReportOctal(chk, octals[k]);
      EntriesAssoc(old(chk.report), Lines(octals[..k]), OctalWarning(octals[k]));
      k := k + 1;
    }
    assert octals[..k] == octals;
  }

  /** The body of the loop in `check`: `warn`, then the three lines for `i`. */
  method ReportOctal(chk: Check, i: IntegerNode)
    modifies chk
    ensures chk.result == Status.Warn
    ensures chk.report == old(chk.report) + OctalWarning(i)
  {
    chk.Warn();
    var ok := chk.Report("warn", Explanation);
    ok := chk.Report("warn", ValueLine(i));
    ok := chk.Report("warn", i.context);
    ThreeLines(old(chk.report), i);
  }

  /** Three `report(:warn, ...)` calls append the warning of `i`. */
  lemma ThreeLines(before: seq<Entry>, i: IntegerNode)
    ensures var w := LevelNamed("warn").value;
      before + [Entry(w, Explanation)] + [Entry(w, ValueLine(i))] + [Entry(w, i.context)] ==
        before + OctalWarning(i)
  {
    assert LevelNamed("warn").value == Level.Warning;
  }

  /** `run`: `pass`, then `check` on the tree of every file. */
  method Run(chk: Check, files: seq<ParsedFile>)
    modifies chk
    ensures chk.result == if AllOctals(files) == [] then Status.Pass else Status.Warn
    ensures chk.report == old(chk.report) + Lines(AllOctals(files))
  {
    chk.Pass();
    var k := 0;
    while k < |files|
      invariant 0 <= k <= |files|
      invariant chk.result == if AllOctals(files[..k]) == [] then Status.Pass else Status.Warn
      invariant chk.report == old(chk.report) + Lines(AllOctals(files[..k]))
    {
      AllOctalsPrefix(files, k);
      CheckTree(chk, files[k].file, files[k].tree);
      LinesAppend(AllOctals(files[..k]), Octals(files[k].tree));
      EntriesAssoc(old(chk.report), Lines(AllOctals(files[..k])), Lines(Octals(files[k].tree)));
      k := k + 1;
    }
    assert files[..k] == files;
  }

  // ---------------------------------------------------------------------
  // Properties of the report

  lemma EntriesAssoc(x: seq<Entry>, y: seq<Entry>, z: seq<Entry>)
    ensures (x + y) + z == x + (y + z)
  {
  }

  lemma {:induction false} FlattenAppend(a: seq<seq<Entry>>, b: seq<seq<Entry>>)
    ensures Flatten(a + b) == Flatten(a) + Flatten(b)
    decreases |b|
  {
    if b == [] {
      assert a + b == a;
    } else {
      var ab := a + b;
      assert ab[..|ab| - 1] == a + b[..|b| - 1];
      assert ab[|ab| - 1] == b[|b| - 1];
      FlattenAppend(a, b[..|b| - 1]);
      EntriesAssoc(Flatten(a), Flatten(b[..|b| - 1]), b[|b| - 1]);
    }
  }

  lemma WarningsAppend(a: Tree, b: Tree)
    ensures Warnings(a + b) == Warnings(a) + Warnings(b)
  {
    var l, r := Warnings(a + b), Warnings(a) + Warnings(b);
    forall k | 0 <= k < |a + b| ensures l[k] == r[k] {
      if k < |a| {
        assert (a + b)[k] == a[k];
      } else {
        assert (a + b)[k] == b[k - |a|];
      }
    }
  }

  /** The report of two runs of integers is the report of the first, then of the second. */
  lemma LinesAppend(a: Tree, b: Tree)
    ensures Lines(a + b) == Lines(a) + Lines(b)
  {
    WarningsAppend(a, b);
    FlattenAppend(Warnings(a), Warnings(b));
  }

  /** One more octal integer adds its three lines at the end. */
  lemma LinesSnoc(octals: Tree, i: IntegerNode)
    ensures Lines(octals + [i]) == Lines(octals) + OctalWarning(i)
  {
    LinesAppend(octals, [i]);
    assert Warnings([i]) == [OctalWarning(i)];
    assert Flatten([OctalWarning(i)]) == Flatten([]) + OctalWarning(i);
  }

  lemma LinesPrefix(octals: Tree, k: nat)
    requires k < |octals|
    ensures Lines(octals[..k + 1]) == Lines(octals[..k]) + OctalWarning(octals[k])
  {
    assert octals[..k + 1] == octals[..k] + [octals[k]];
    LinesSnoc(octals[..k], octals[k]);
  }

  lemma {:induction false} FlattenLength(groups: seq<seq<Entry>>)
    requires forall k :: 0 <= k < |groups| ==> |groups[k]| == 3
    ensures |Flatten(groups)| == 3 * |groups|
  {
    if groups != [] {
      FlattenLength(groups[..|groups| - 1]);
    }
  }

  /** Three lines per octal integer. */
  lemma LinesLength(octals: Tree)
    ensures |Lines(octals)| == 3 * |octals|
  {
    FlattenLength(Warnings(octals));
  }

  lemma {:induction false} FlattenAt(groups: seq<seq<Entry>>, k: nat)
    requires forall j :: 0 <= j < |groups| ==> |groups[j]| == 3
    requires k < |groups|
    ensures |Flatten(groups)| == 3 * |groups|
    ensures Flatten(groups)[3 * k..3 * k + 3] == groups[k]
  {
    FlattenLength(groups);
    var init := groups[..|groups| - 1];
    FlattenLength(init);
    if k < |init| {
      FlattenAt(init, k);
      assert groups[k] == init[k];
      assert Flatten(groups)[3 * k..3 * k + 3] == Flatten(init)[3 * k..3 * k + 3];
    }
  }

  /** The lines for the k-th octal integer are lines 3k to 3k+2 of the
      report, in the order explanation, decimal value, context. */
  lemma LinesAt(octals: Tree, k: nat)
    requires k < |octals|
    ensures |Lines(octals)| == 3 * |octals|
    ensures Lines(octals)[3 * k..3 * k + 3] == OctalWarning(octals[k])
  {
    FlattenAt(Warnings(octals), k);
  }

  lemma AllOctalsPrefix(files: seq<ParsedFile>, k: nat)
    requires k < |files|
    ensures AllOctals(files[..k + 1]) == AllOctals(files[..k]) + Octals(files[k].tree)
  {
    assert files[..k + 1][..k] == files[..k] && files[..k + 1][k] == files[k];
  }

  /** `i` is an integer node of some file's tree. */
  predicate InSomeTree(files: seq<ParsedFile>, i: IntegerNode)
  {
    exists j :: 0 <= j < |files| && i in files[j].tree
  }

  lemma InSomeTreeSnoc(files: seq<ParsedFile>, i: IntegerNode)
    requires files != []
    ensures InSomeTree(files, i) <==>
      InSomeTree(files[..|files| - 1], i) || i in files[|files| - 1].tree
  {
    var init := files[..|files| - 1];
    if InSomeTree(files, i) {
      var j :| 0 <= j < |files| && i in files[j].tree;
      if j < |init| {
        assert init[j] == files[j];
      }
    }
    if InSomeTree(init, i) {
      var j :| 0 <= j < |init| && i in init[j].tree;
      assert files[j] == init[j];
    }
  }

  /** An integer is among the reported ones exactly when it is an octal
      integer of some file's tree. */
  lemma {:induction false} AllOctalsMembers(files: seq<ParsedFile>)
    ensures forall i :: i in AllOctals(files) <==> IsOctal(i) && InSomeTree(files, i)
  {
    if files != [] {
      AllOctalsMembers(files[..|files| - 1]);
      forall i ensures i in AllOctals(files) <==> IsOctal(i) && InSomeTree(files, i) {
        InSomeTreeSnoc(files, i);
      }
    }
  }

  /** Integers of other token types change nothing: adding one to a tree
      leaves the report of that tree as it was. */
  lemma {:induction false} NonOctalIgnored(tree: Tree, i: IntegerNode)
    requires !IsOctal(i)
    ensures Octals(tree + [i]) == Octals(tree)
    decreases |tree|
  {
    if tree == [] {
      assert Octals([i]) == [] + Octals([]);
    } else {
      assert (tree + [i])[0] == tree[0] && (tree + [i])[1..] == tree[1..] + [i];
      NonOctalIgnored(tree[1..], i);
    }
  }

  /** After `run`, the verdict is `pass` exactly when no file has an octal
      integer, and the report holds three lines per octal integer. */
  lemma {:induction false} RunVerdict(files: seq<ParsedFile>)
    ensures AllOctals(files) == [] <==>
      forall j, i :: 0 <= j < |files| && i in files[j].tree ==> !IsOctal(i)
    ensures |Lines(AllOctals(files))| == 3 * |AllOctals(files)|
  {
    AllOctalsMembers(files);
    LinesLength(AllOctals(files));
    if AllOctals(files) != [] {
      var i := AllOctals(files)[0];
      assert i in AllOctals(files);
    }
  }

  lemma LinesSingle(i: IntegerNode)
    ensures Lines([i]) == OctalWarning(i)
  {
    LinesSnoc([], i);
    assert [] + [i] == [i];
    assert Warnings([]) == [];
  }

  lemma DecimalExample()
    ensures Decimal(511) == "511"
  {
    assert Tenths(511) == 51 && Tenths(51) == 5;
    assert Digits(5) == "5";
    assert Digits(51) == "51";
  }

  /** The documented example: `0777` warns with decimal value 511, while a
      decimal integer beside it is not reported. */
  lemma OctalExample()
    ensures var i := IntegerNode(IntOct, 511, "x = 0777;");
      Lines(Octals([IntegerNode(IntDec, 777, "y = 777;"), i])) ==
        [Entry(Level.Warning, Explanation),
         Entry(Level.Warning, "This integer will have decimal value '511'."),
         Entry(Level.Warning, "x = 0777;")]
  {
    var i := IntegerNode(IntOct, 511, "x = 0777;");
    NonOctalIgnored([], IntegerNode(IntDec, 777, "y = 777;"));
    OctalKept([IntegerNode(IntDec, 777, "y = 777;")], i);
    LinesSingle(i);
    ValueLineExample(i);
  }

  lemma OctalKept(tree: Tree, i: IntegerNode)
    requires IsOctal(i)
    ensures Octals(tree + [i]) == Octals(tree) + [i]
    decreases |tree|
  {
    if tree == [] {
      assert Octals([i]) == [i] + Octals([]);
    } else {
      assert (tree + [i])[0] == tree[0] && (tree + [i])[1..] == tree[1..] + [i];
      OctalKept(tree[1..], i);
    }
  }

  lemma ValueLineExample(i: IntegerNode)
    requires i.value == 511
    ensures ValueLine(i) == "This integer will have decimal value '511'."
  {
    DecimalExample();
  }
}
