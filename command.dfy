/** The command registry of lib/pedant/command.rb: command classes register
    themselves as they load, are found by their binding (the word typed on
    the command line), listed by binding, and print section banners padded
    with dashes to a fixed width. */
module Command {
  import opened Wrappers
  import opened Strings

  /** A command class, with the word that selects it on the command line. */
  datatype CommandClass = CommandClass(name: string, binding: string)

  /** The bindings of the registered commands, in registration order. */
  function Bindings(all: seq<CommandClass>): (r: seq<string>)
    ensures |r| == |all|
    ensures forall i :: 0 <= i < |all| ==> r[i] == all[i].binding
  {
    seq(|all|, i requires 0 <= i < |all| => all[i].binding)
  }

  /** `Command.all`, filled by the `inherited` hook as command classes load. */
  class CommandRegistry {
    var all: seq<CommandClass>

    /** An empty registry, before any command class has loaded. */
    constructor ()
      ensures all == []
    {
      all := [];
    }

    /** `inherited`: registers a new subclass at the end. */
    method Inherited(cls: CommandClass)
      modifies this
      ensures all == old(all) + [cls]
    {
      all := all + [cls];
    }

    /** `list`: the bindings of all registered commands, sorted. */
    function List(): (r: seq<string>)
      reads this
      ensures Sorted(r)
      ensures multiset(r) == multiset(Bindings(all))
    {
      Sort(Bindings(all))
    }

    /** `find(cmd)`: the first registered command bound to `cmd`, or nil. */
    method Find(cmd: string) returns (r: Option<CommandClass>)
      ensures r.None? <==> forall i :: 0 <= i < |all| ==> all[i].binding != cmd
      ensures r.Some? ==> exists i :: 0 <= i < |all| && all[i] == r.value && r.value.binding == cmd &&
                                  (forall j :: 0 <= j < i ==> all[j].binding != cmd)
    {
      var i := 0;
      while i < |all|
        invariant 0 <= i <= |all|
        invariant forall j :: 0 <= j < i ==> all[j].binding != cmd
      {
        if all[i].binding == cmd {
          return Some(all[i]);
        }
        i := i + 1;
      }
      return None;
    }
  }

  /** The sorted list is the only sorted arrangement of the bindings: any
      sorted sequence holding exactly the registered bindings is the list. */
  lemma ListIsTheSortedBindings(all: seq<CommandClass>, s: seq<string>)
    requires Sorted(s) && multiset(s) == multiset(Bindings(all))
    ensures s == Sort(Bindings(all))
  {
    SortedUnique(s, Sort(Bindings(all)));
  }

  /** Registering a command adds its binding to the list and keeps the rest. */
  lemma ListAfterInherited(all: seq<CommandClass>, cls: CommandClass)
    ensures multiset(Sort(Bindings(all + [cls]))) == multiset(Sort(Bindings(all))) + multiset{cls.binding}
  {
    assert Bindings(all + [cls]) == Bindings(all) + [cls.binding];
  }

  // ---------------------------------------------------------------------
  // Banners

  /** The width used when none is given. */
  const DefaultWidth := 80

  /** The centre of a banner: the title in square brackets, padded by spaces. */
  function Middle(title: string): string
  {
    "[ " + title + " ]"
  }

  /** `banner(title, width)`: the middle between two runs of dashes, the left
      run `floor((width - length) / 2)` long and the right run the `ceil` of
      the same. When the middle is longer than the width the repeat count is
      negative and the source raises, which is None here. */
  function Banner(title: string, width: int): (r: Option<string>)
    ensures r.None? <==> width < |Middle(title)|
    ensures r.Some? ==> |r.value| == width
  {
    var middle := Middle(title);
    var leftover := width - |middle|;
    if leftover < 0 then None
    else
      var left := leftover / 2;
      var right := leftover - left;
      Some(Repeat('-', left) + middle + Repeat('-', right))
  }

  /** `banner(title)`: the default width, which a title of at most 76
      characters fits exactly. */
  function DefaultBanner(title: string): (r: Option<string>)
    ensures r.Some? <==> |title| <= DefaultWidth - 4
    ensures r.Some? ==> |r.value| == DefaultWidth
  {
    Banner(title, DefaultWidth)
  }

  /** The layout of a banner: dashes, then the middle starting at the floor
      of half the leftover, then dashes; the right run is as long as the left
      one or one longer. */
  lemma BannerLayout(title: string, width: int)
    requires width >= |Middle(title)|
    ensures var b := Banner(title, width).value;
      var m := Middle(title);
      var leftover := width - |m|;
      var left := leftover / 2;
      2 * left <= leftover <= 2 * left + 1 &&
      b[..left] == Repeat('-', left) &&
      b[left..left + |m|] == m &&
      b[left + |m|..] == Repeat('-', leftover - left)
  {
    var m := Middle(title);
    var leftover := width - |m|;
    var left := leftover / 2;
    var b := Repeat('-', left) + m + Repeat('-', leftover - left);
    assert b[..left] == Repeat('-', left);
    assert b[left..left + |m|] == m;
    assert b[left + |m|..] == Repeat('-', leftover - left);
  }

  // ---------------------------------------------------------------------
  // Reading a banner back

  function DropLeadingDashes(s: string): (r: string)
    ensures |r| <= |s|
  {
    if s != [] && s[0] == '-' then DropLeadingDashes(s[1..]) else s
  }

  function DropTrailingDashes(s: string): (r: string)
    ensures |r| <= |s|
  {
    if s != [] && s[|s| - 1] == '-' then DropTrailingDashes(s[..|s| - 1]) else s
  }

  /** The title of a banner: the text between `[ ` and ` ]` once the dashes
      on both sides are gone, or None for a line that is no banner. */
  function Unbanner(b: string): Option<string>
  {
    var t := DropTrailingDashes(DropLeadingDashes(b));
    if |t| >= 4 && t[..2] == "[ " && t[|t| - 2..] == " ]" then Some(t[2..|t| - 2]) else None
  }

  lemma {:induction false} DropLeadingDashesRepeat(n: nat, rest: string)
    requires rest != [] && rest[0] != '-'
    ensures DropLeadingDashes(Repeat('-', n) + rest) == rest
  {
    if n > 0 {
      var s := Repeat('-', n) + rest;
      assert s[0] == '-';
      assert s[1..] == Repeat('-', n - 1) + rest;
      DropLeadingDashesRepeat(n - 1, rest);
    } else {
      assert Repeat('-', n) + rest == rest;
    }
  }

  lemma {:induction false} DropTrailingDashesRepeat(rest: string, n: nat)
    requires rest != [] && rest[|rest| - 1] != '-'
    ensures DropTrailingDashes(rest + Repeat('-', n)) == rest
  {
    if n > 0 {
      var s := rest + Repeat('-', n);
      assert s[|s| - 1] == '-';
      assert s[..|s| - 1] == rest + Repeat('-', n - 1);
      DropTrailingDashesRepeat(rest, n - 1);
    } else {
      assert rest + Repeat('-', n) == rest;
    }
  }

  /** Reading the title back from a banner gives the title, whatever it holds. */
  lemma BannerRoundTrip(title: string, width: int)
    requires width >= |Middle(title)|
    ensures Unbanner(Banner(title, width).value) == Some(title)
  {
    var m := Middle(title);
    var leftover := width - |m|;
    var left := leftover / 2;
    assert Banner(title, width).value == Repeat('-', left) + (m + Repeat('-', leftover - left));
    DropLeadingDashesRepeat(left, m + Repeat('-', leftover - left));
    DropTrailingDashesRepeat(m, leftover - left);
    assert m[..2] == "[ " && m[|m| - 2..] == " ]" && m[2..|m| - 2] == title;
  }

  /** An example: an odd leftover puts the extra dash on the right. */
  lemma BannerExample()
    ensures Banner("ab", 11) == Some("--[ ab ]---")
  {
    assert |Middle("ab")| == 6;
    assert (11 - 6) / 2 == 2;
    assert Repeat('-', 2) == "--" && Repeat('-', 3) == "---";
    assert "--" + Middle("ab") + "---" == "--[ ab ]---";
  }
}
