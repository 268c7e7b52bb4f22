/** The main menu: the games list in the centre, two configurable side tabs,
    the L/R buttons that move between them, and the path rewrite used when
    an update archive is extracted
    (NPShop/source/ui/menus/main_menu.cpp). */
module MainMenu {
  import opened Wrappers

  // ---------------------------------------------------------------------
  // The side tabs

  /** The menus the "Misc" list offers. */
  datatype MenuKind = Appstore | Games | FileBrowser | Saves | GameCard

  datatype MiscEntry = MiscEntry(name: string, kind: MenuKind)

  /** `MISC_MENU_ENTRIES`, in order. */
  const MiscEntries: seq<MiscEntry> := [
    MiscEntry("Appstore", Appstore),
    MiscEntry("Games", Games),
    MiscEntry("FileBrowser", FileBrowser),
    MiscEntry("Saves", Saves),
    MiscEntry("GameCard", GameCard)
  ]

  /** The position of the first entry called `name`, or `|es|`. */
  function FirstNamed(es: seq<MiscEntry>, name: string): (k: nat)
    ensures k <= |es|
    ensures k < |es| ==> es[k].name == name
    ensures forall j :: 0 <= j < k ==> es[j].name != name
  {
    if es == [] then 0
    else if es[0].name == name then 0
    else 1 + FirstNamed(es[1..], name)
  }

  /** The kind of the first entry called `name`, if any. */
  function Lookup(name: string): Option<MenuKind> {
    var k := FirstNamed(MiscEntries, name);
    if k < |MiscEntries| then Some(MiscEntries[k].kind) else None
  }

  /** The entries' names and kinds are all different, so a name picks one
      menu and a menu has one name. */
  lemma MiscEntriesDistinct()
    ensures forall i, j :: 0 <= i < j < |MiscEntries| ==> MiscEntries[i].name != MiscEntries[j].name
    ensures forall i, j :: 0 <= i < j < |MiscEntries| ==> MiscEntries[i].kind != MiscEntries[j].kind
  {
  }

  /** `Lookup` finds exactly the entries of the list. */
  lemma LookupSpec(name: string)
    ensures Lookup(name).Some? <==> exists i :: 0 <= i < |MiscEntries| && MiscEntries[i].name == name
    ensures forall i :: 0 <= i < |MiscEntries| && MiscEntries[i].name == name ==> Lookup(name) == Some(MiscEntries[i].kind)
  {
    MiscEntriesDistinct();
  }

  /** The loop over `GetMiscMenuEntries()` both side tabs run: the kind of
      the first entry called `name`, if any. */
  method FindMisc(name: string) returns (found: Option<MenuKind>)
    ensures found == Lookup(name)
  {
    var i := 0;
    while i < |MiscEntries|
      invariant 0 <= i <= |MiscEntries|
      invariant forall j :: 0 <= j < i ==> MiscEntries[j].name != name
    {
      if MiscEntries[i].name == name {
        return Some(MiscEntries[i].kind);
      }
      i := i + 1;
    }
    return None;
  }

  /** The left tab for the configured name, and the name it reports: the
      entry called so, or the file browser under its own name. */
  function LeftChoice(name: string): (MenuKind, string) {
    match Lookup(name)
    case Some(k) => (k, name)
    case None => (FileBrowser, "FileBrowser")
  }

  /** The name the left tab reports always leads back to that tab. */
  lemma LeftChoiceNamed(name: string)
    ensures Lookup(LeftChoice(name).1) == Some(LeftChoice(name).0)
  {
    LookupSpec("FileBrowser");
  }

  /** `CreateLeftSideMenu`: the configured left menu when it names an
      entry, otherwise the file browser. */
  method CreateLeftSideMenu(name: string) returns (kind: MenuKind, nameOut: string)
    ensures (kind, nameOut) == LeftChoice(name)
  {
    var found := FindMisc(name);
    if found.Some? {
      return found.value, name;
    }
    return FileBrowser, "FileBrowser";
  }

  /** `CreateRightSideMenu` as written: a right name equal to the left one
      gives the store unless the left name is "AppStore" (a spelling no
      entry has); otherwise the entry called so, defaulting to the store. */
  function RightChoiceAsWritten(name: string, leftName: string): MenuKind {
    if name == leftName then
      (if leftName != "AppStore" then Appstore else FileBrowser)
    else
      match Lookup(name)
      case Some(k) => k
      case None => Appstore
  }

  /** Choosing the store for both tabs mounts it twice. */
  lemma RightChoiceAsWrittenDuplicates()
    ensures LeftChoice("Appstore") == (Appstore, "Appstore")
    ensures RightChoiceAsWritten("Appstore", LeftChoice("Appstore").1) == Appstore
  {
    assert Lookup("Appstore") == Some(Appstore);
  }

  /** `CreateRightSideMenu` with the duplicate test against the store
      entry's own name "Appstore". */
  function RightChoice(name: string, leftName: string): MenuKind {
    if name == leftName then
      (if leftName != "Appstore" then Appstore else FileBrowser)
    else
      match Lookup(name)
      case Some(k) => k
      case None => Appstore
  }

  /** Configuring the same menu on both sides never mounts it twice. */
  lemma RightAvoidsDuplicate(left: string)
    ensures RightChoice(LeftChoice(left).1, LeftChoice(left).1) != LeftChoice(left).0
  {
    LeftChoiceNamed(left);
    var n := LeftChoice(left).1;
    LookupSpec(n);
    LookupSpec("Appstore");
    if n != "Appstore" {
      assert LeftChoice(left).0 != Appstore;
    }
  }

  /** A right name different from the left one that names an entry gives
      that entry's menu, and it differs from the left tab. */
  lemma RightChoiceNamed(name: string, left: string)
    requires name != LeftChoice(left).1 && Lookup(name).Some?
    ensures RightChoice(name, LeftChoice(left).1) == Lookup(name).value != LeftChoice(left).0
  {
    LeftChoiceNamed(left);
    var n := LeftChoice(left).1;
    LookupSpec(name);
    LookupSpec(n);
    MiscEntriesDistinct();
  }

  /** `CreateRightSideMenu`, with the duplicate test corrected. */
  method CreateRightSideMenu(name: string, leftName: string) returns (kind: MenuKind)
    ensures kind == RightChoice(name, leftName)
  {
    if name == leftName {
      if leftName != "Appstore" {
        return Appstore;
      }
      return FileBrowser;
    }
    var found := FindMisc(name);
    if found.Some? {
      return found.value;
    }
    return Appstore;
  }

  // ---------------------------------------------------------------------
  // Moving between tabs

  datatype Tab = Left | Centre | Right

  /** The buttons the main menu binds. */
  datatype Button = Start | Select | Y | L | R

  predicate IsShoulder(b: Button) { b == L || b == R }

  /** Where pressing L or R from `current` leads: from the centre to the
      pressed side, from a side back to the centre. */
  function Target(current: Tab, b: Button): (t: Tab)
    requires IsShoulder(b)
    ensures t != current
    ensures current == Centre <==> t != Centre
  {
    if current != Centre then Centre else if b == L then Left else Right
  }

  /** The L and R actions `AddOnLRPress` installs from `current`: L unless
      the left tab is current, R unless the right tab is, each labelled
      with the short title of the tab it leads to. */
  function ShoulderActions(current: Tab, titles: map<Tab, string>): (m: map<Button, string>)
    requires Left in titles && Centre in titles && Right in titles
    ensures forall b :: b in m ==> IsShoulder(b) && m[b] == titles[Target(current, b)]
    ensures (L in m <==> current != Left) && (R in m <==> current != Right)
  {
    var m := if current != Left then map[L := titles[Target(current, L)]] else map[];
    if current != Right then m[R := titles[Target(current, R)]] else m
  }

  /** The invariant the L/R bindings keep: a side tab never offers its own
      button, every other tab does, and each bound L/R action is labelled
      with the tab it leads to. */
  predicate ShoulderBound(current: Tab, actions: map<Button, string>, titles: map<Tab, string>) {
    Left in titles && Centre in titles && Right in titles
    && (L in actions <==> current != Left) && (R in actions <==> current != Right)
    && (L in actions ==> actions[L] == titles[Target(current, L)])
    && (R in actions ==> actions[R] == titles[Target(current, R)])
  }

  /** The menu `MainMenu` builds: its tabs' kinds and short titles, the tab
      shown, its own action map and the action map of each tab. */
  class Main {
    var leftKind: MenuKind
    var rightKind: MenuKind
    var titles: map<Tab, string>
    var current: Tab
    var actions: map<Button, string>
    var tabActions: map<Tab, map<Button, string>>

    /** `MainMenu::MainMenu`: the games list in the centre, the side tabs
        picked from the configured names, the L/R actions installed and all
        actions handed to the centre. A menu's short title is a parameter. */
    constructor (leftName: string, rightName: string, shortTitle: MenuKind -> string)
      ensures (leftKind, rightKind) == (LeftChoice(leftName).0, RightChoice(rightName, LeftChoice(leftName).1))
      ensures titles == map[Left := shortTitle(leftKind), Centre := shortTitle(Games), Right := shortTitle(rightKind)]
      ensures current == Centre
      ensures ShoulderBound(current, actions, titles)
      ensures actions == map[Start := "", Select := "", Y := "Menu"] + ShoulderActions(Centre, titles)
      ensures tabActions == map[Left := map[], Centre := actions, Right := map[]]
    {
      var lk, reported := CreateLeftSideMenu(leftName);
      var rk := CreateRightSideMenu(rightName, reported);
      leftKind := lk;
      rightKind := rk;
      titles := map[Left := shortTitle(lk), Centre := shortTitle(Games), Right := shortTitle(rk)];
      current := Centre;
      actions := map[Start := "", Select := "", Y := "Menu"];
      tabActions := map[];
      new;
      AddOnLRPress();
      tabActions := map[Left := map[], Centre := actions, Right := map[]];
    }

    /** `MainMenu::AddOnLRPress`: install the L and R actions that lead
        away from the current tab, leaving every other action as it is. */
    method AddOnLRPress()
      requires Left in titles && Centre in titles && Right in titles
      modifies this`actions
      ensures actions == old(actions) + ShoulderActions(current, titles)
    {
      if current != Left {
        var title := if current == Centre then titles[Left] else titles[Centre];
        actions := actions[L := title];
      }
      if current != Right {
        var title := if current == Centre then titles[Right] else titles[Centre];
        actions := actions[R := title];
      }
    }

    /** `MainMenu::OnLRPress`: from the centre, show the pressed side and
        drop that button's action; from a side, go back to the centre. The
        L/R actions are then reinstalled and all actions handed to the tab
        now shown. */
    method OnLRPress(b: Button)
      requires IsShoulder(b) && ShoulderBound(current, actions, titles)
      requires Left in tabActions && Centre in tabActions && Right in tabActions
      modifies this`current, this`actions, this`tabActions
      ensures current == Target(old(current), b)
      ensures ShoulderBound(current, actions, titles)
      ensures forall c :: !IsShoulder(c) ==> (c in actions <==> c in old(actions))
      ensures forall c :: !IsShoulder(c) && c in actions ==> actions[c] == old(actions)[c]
      ensures tabActions == old(tabActions)[current := old(tabActions)[current] + actions]
    {
      if current == Centre {
        current := if b == L then Left else Right;
        actions := actions - {b};
      } else {
        current := Centre;
      }
      AddOnLRPress();
      tabActions := tabActions[current := tabActions[current] + actions];
    }
  }

  // ---------------------------------------------------------------------
  // Installing an update

  /** The archive entry name that marks the application itself. */
  const ExeName: string := "npshop.nro"

  /** `t` occurs in `s` at `i` (the test `strstr` makes). */
  predicate OccursAt(s: string, t: string, i: int) {
    0 <= i && i + |t| <= |s| && s[i..i + |t|] == t
  }

  predicate Occurs(s: string, t: string) {
    exists i :: 0 <= i <= |s| && OccursAt(s, t, i)
  }

  /** The path the extract callback of `InstallUpdate` writes an entry to:
      any path naming the application goes to the running executable. */
  function Redirect(path: string, exePath: string): (r: string)
    ensures Occurs(path, ExeName) ==> r == exePath
    ensures !Occurs(path, ExeName) ==> r == path
  {
    if Occurs(path, ExeName) then exePath else path
  }

  /** Extracting the update archive: every entry is accepted, each one goes
      to its redirected path, and `found_exe` ends up set exactly when some
      entry named the application. */
  function Extracted(paths: seq<string>, exePath: string): (r: (seq<string>, bool))
    ensures |r.0| == |paths|
    ensures forall i :: 0 <= i < |paths| ==> r.0[i] == Redirect(paths[i], exePath)
    ensures r.1 <==> exists i :: 0 <= i < |paths| && Occurs(paths[i], ExeName)
  {
    if paths == [] then ([], false)
    else
      var n := |paths| - 1;
      var (out, found) := Extracted(paths[..n], exePath);
      (out + [Redirect(paths[n], exePath)], found || Occurs(paths[n], ExeName))
  }

  /** No extracted path names the application except the executable's. */
  lemma ExtractedOnlyExe(paths: seq<string>, exePath: string)
    ensures forall i :: 0 <= i < |paths| && Occurs(Extracted(paths, exePath).0[i], ExeName) ==> Extracted(paths, exePath).0[i] == exePath
  {
  }

  /** Redirecting the extracted paths again changes nothing. */
  lemma ExtractedIdempotent(paths: seq<string>, exePath: string)
    ensures Extracted(Extracted(paths, exePath).0, exePath).0 == Extracted(paths, exePath).0
  {
  }
}
