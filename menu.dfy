/** The navigation options and the bracketed strings that stand for them in the selector's
    list: encoding an option as `[[Label]]` and decoding a picked line back to the option. */
module Menu {
  import opened Wrappers
  import opened Sequences

  datatype MenuOption = MainMenu | MVSelector | ToggleMVs | ToggleLive | Random | Quit | Update

  /** The `Display` text of each option. */
  function Label(o: MenuOption): string {
    match o
    case MainMenu => "Main Menu"
    case MVSelector => "MV Selector"
    case ToggleMVs => "Toggle MVs"
    case ToggleLive => "Toggle Live"
    case Random => "Random"
    case Quit => "Quit"
    case Update => "Update"
  }

  /** `MenuOptions::iterator()`: every option once, in declaration order. */
  function Options(): (r: seq<MenuOption>)
    ensures |r| == 7 && NoDuplicates(r)
    ensures forall o :: o in r
  {
    var r := [MainMenu, MVSelector, ToggleMVs, ToggleLive, Random, Quit, Update];
    assert forall o :: o in r by {
      forall o ensures o in r {
        if o.MainMenu? { assert r[0] == o; }
        else if o.MVSelector? { assert r[1] == o; }
        else if o.ToggleMVs? { assert r[2] == o; }
        else if o.ToggleLive? { assert r[3] == o; }
        else if o.Random? { assert r[4] == o; }
        else if o.Quit? { assert r[5] == o; }
        else { assert r[6] == o; }
      }
    }
    r
  }

  /** `format!("[[{}]]", text)`. */
  function Wrap(text: string): (r: string)
    ensures |r| == |text| + 4 && r[2..|r| - 2] == text
    ensures r[..2] == "[[" && r[|r| - 2..] == "]]"
  {
    "[[" + text + "]]"
  }

  /** Wrapping loses nothing: the label is recovered from the wrapped string. */
  lemma WrapInjective(a: string, b: string)
    requires Wrap(a) == Wrap(b)
    ensures a == b
  {
    assert a == Wrap(a)[2..|Wrap(a)| - 2];
    assert b == Wrap(b)[2..|Wrap(b)| - 2];
  }

  /** No two options share a label. */
  lemma LabelsDistinct(o: MenuOption, p: MenuOption)
    requires o != p
    ensures Label(o) != Label(p)
  {
    if |Label(o)| == |Label(p)| {
      assert Label(o)[0] != Label(p)[0];
    }
  }

  /** No two options share a wrapped label, so a picked line names at most one option. */
  lemma WrappedLabelsDistinct(o: MenuOption, p: MenuOption)
    requires Wrap(Label(o)) == Wrap(Label(p))
    ensures o == p
  {
    WrapInjective(Label(o), Label(p));
    if o != p { LabelsDistinct(o, p); }
  }

  /** `find`: the first option of `opts` whose wrapped label is `selected`; no earlier
      option matches. */
  function Find(opts: seq<MenuOption>, selected: string): (r: Option<MenuOption>)
    ensures r.Some? ==> r.value in opts && Wrap(Label(r.value)) == selected
    ensures r.None? ==> forall o :: o in opts ==> Wrap(Label(o)) != selected
    ensures r.Some? ==>
              exists i :: 0 <= i < |opts| && opts[i] == r.value &&
                          forall j :: 0 <= j < i ==> Wrap(Label(opts[j])) != selected
  {
    if opts == [] then None
    else if Wrap(Label(opts[0])) == selected then Some(opts[0])
    else Find(opts[1..], selected)
  }

  /** `MenuOptions::get_selection`: the option whose wrapped label is exactly `selected`,
      if any. */
  function GetSelection(selected: string): (r: Option<MenuOption>)
    ensures r.Some? ==> Wrap(Label(r.value)) == selected
    ensures r.None? <==> forall o :: Wrap(Label(o)) != selected
  {
    Find(Options(), selected)
  }

  /** Decoding the encoding of an option gives the option back. */
  lemma SelectionRoundTrip(o: MenuOption)
    ensures GetSelection(Wrap(Label(o))) == Some(o)
  {
    var r := GetSelection(Wrap(Label(o)));
    assert r.Some?;
    WrappedLabelsDistinct(r.value, o);
  }

  /** The wrapped labels of the options of `opts` whose label is not in `exclude`, in order:
      `filter(..).map(|o| format!("[[{}]]", o))`. */
  function MenuEntries(opts: seq<MenuOption>, exclude: seq<string>): (r: seq<string>)
    ensures |r| <= |opts|
    ensures forall s :: s in r <==>
      exists o :: o in opts && Label(o) !in exclude && s == Wrap(Label(o))
  {
    if opts == [] then []
    else
      var rest := MenuEntries(opts[1..], exclude);
      assert forall o :: o in opts <==> o == opts[0] || o in opts[1..];
      if Label(opts[0]) in exclude then rest else [Wrap(Label(opts[0]))] + rest
  }

  /** `MenuOptions::generate_menu`. */
  function GenerateMenu(exclude: seq<string>): (r: seq<string>)
    ensures forall s :: s in r <==> exists o :: Label(o) !in exclude && s == Wrap(Label(o))
  {
    MenuEntries(Options(), exclude)
  }

  lemma {:induction false} MenuEntriesNothingExcluded(opts: seq<MenuOption>)
    ensures |MenuEntries(opts, [])| == |opts|
  {
    if opts != [] { MenuEntriesNothingExcluded(opts[1..]); }
  }

  /** With nothing excluded the menu lists all seven options. */
  lemma GenerateMenuFull()
    ensures |GenerateMenu([])| == 7
  {
    MenuEntriesNothingExcluded(Options());
  }

  lemma {:induction false} MenuEntriesInOrder(opts: seq<MenuOption>, exclude: seq<string>)
    requires NoDuplicates(opts)
    ensures Subsequence(MenuEntries(opts, exclude), MenuEntries(opts, []))
  {
    if opts != [] {
      MenuEntriesInOrder(opts[1..], exclude);
      if Label(opts[0]) in exclude {
        ExcludedHeadNotInRest(opts, exclude);
      }
    }
  }

  /** When the first option is excluded its entry cannot open the rest of the menu, since
      the later options have other labels. */
  lemma ExcludedHeadNotInRest(opts: seq<MenuOption>, exclude: seq<string>)
    requires opts != [] && NoDuplicates(opts)
    ensures Wrap(Label(opts[0])) !in MenuEntries(opts[1..], exclude)
  {
    if Wrap(Label(opts[0])) in MenuEntries(opts[1..], exclude) {
      var o :| o in opts[1..] && Label(o) !in exclude && Wrap(Label(opts[0])) == Wrap(Label(o));
      WrappedLabelsDistinct(opts[0], o);
    }
  }

  /** The generated menu keeps the declaration order of the options. */
  lemma GenerateMenuInOrder(exclude: seq<string>)
    ensures Subsequence(GenerateMenu(exclude), GenerateMenu([]))
  {
    MenuEntriesInOrder(Options(), exclude);
  }

  /** Every generated entry decodes to an option whose label was not excluded. */
  lemma GeneratedEntriesDecode(exclude: seq<string>, s: string)
    requires s in GenerateMenu(exclude)
    ensures GetSelection(s).Some? && Label(GetSelection(s).value) !in exclude
  {
    var o :| Label(o) !in exclude && s == Wrap(Label(o));
    SelectionRoundTrip(o);
  }
}
