/** Which inventory hosts a recipe runs on: targets, then narrowing. */
module Selection {
  import opened Wrappers
  import Glob

  /** Host names in name order, and the members of each group. */
  datatype Inventory = Inventory(hosts: seq<string>, groups: map<string, seq<string>>)

  datatype Selector = Selector(hosts: seq<string>, groups: seq<string>)

  datatype Kind = Bare | Host | Group

  datatype Item = Item(kind: Kind, text: string, glob: bool)

  datatype Reason = ByHost | ByGroup(name: string)

  datatype HostMatch = HostMatch(name: string, reasons: seq<Reason>, limitExcluded: bool) {
    predicate Targeted() { reasons != [] }
    predicate Selected() { Targeted() && !limitExcluded }
  }

  datatype SelectError =
    | NoTargets | UnknownHost | UnknownGroup | SelectsNothing
    | Ambiguous | NamesNothing | RunsNothing | BundleNeedsTargets

  /** What loading an inventory checks. */
  ghost predicate WellFormed(inv: Inventory) {
    && (forall i, j :: 0 <= i < j < |inv.hosts| ==> inv.hosts[i] != inv.hosts[j])
    && (forall g :: g in inv.groups ==> inv.groups[g] != [] && forall m :: m in inv.groups[g] ==> m in inv.hosts)
  }

  function Elems(s: seq<string>): set<string> { set x | x in s }

  // ------------------------------------------------------------- target resolution

  function GroupReasons(inv: Inventory, groups: seq<string>, name: string): (r: seq<Reason>)
    requires forall g :: g in groups ==> g in inv.groups
    ensures r != [] <==> exists g :: g in groups && name in inv.groups[g]
  {
    if groups == [] then []
    else (if name in inv.groups[groups[0]] then [ByGroup(groups[0])] else []) + GroupReasons(inv, groups[1..], name)
  }

  function MatchHost(inv: Inventory, sel: Selector, name: string): HostMatch
    requires forall g :: g in sel.groups ==> g in inv.groups
  {
    HostMatch(name, (if name in sel.hosts then [ByHost] else []) + GroupReasons(inv, sel.groups, name), false)
  }

  function Resolve(inv: Inventory, sel: Option<Selector>): Result<seq<HostMatch>, SelectError> {
    if sel.None? then Err(NoTargets)
    else if exists h :: h in sel.value.hosts && h !in inv.hosts then Err(UnknownHost)
    else if exists g :: g in sel.value.groups && g !in inv.groups then Err(UnknownGroup)
    else
      var hosts := MatchHosts(inv, sel.value);
      if exists h :: h in hosts && h.Targeted() then Ok(hosts) else Err(SelectsNothing)
  }

  /** What the selector means: the hosts it names and the members of the groups it names. */
  ghost function Meant(inv: Inventory, sel: Selector): set<string> {
    set h | h in inv.hosts && (h in sel.hosts || exists g :: g in sel.groups && g in inv.groups && h in inv.groups[g])
  }

  function TargetedOf(hosts: seq<HostMatch>): set<string> { set h | h in hosts && h.Targeted() :: h.name }

  function SelectedOf(hosts: seq<HostMatch>): set<string> { set h | h in hosts && h.Selected() :: h.name }

  function MatchHosts(inv: Inventory, sel: Selector): (hosts: seq<HostMatch>)
    requires forall g :: g in sel.groups ==> g in inv.groups
    ensures |hosts| == |inv.hosts| && forall i :: 0 <= i < |hosts| ==> hosts[i] == MatchHost(inv, sel, inv.hosts[i])
  {
    seq(|inv.hosts|, i requires 0 <= i < |inv.hosts| => MatchHost(inv, sel, inv.hosts[i]))
  }

  lemma MatchHostsExact(inv: Inventory, sel: Selector)
    requires forall g :: g in sel.groups ==> g in inv.groups
    ensures TargetedOf(MatchHosts(inv, sel)) == SelectedOf(MatchHosts(inv, sel)) == Meant(inv, sel)
  {
    var hosts := MatchHosts(inv, sel);
    forall i | 0 <= i < |hosts|
      ensures hosts[i].name == inv.hosts[i] && !hosts[i].limitExcluded
      ensures hosts[i].Targeted() <==> inv.hosts[i] in Meant(inv, sel)
    {
    }
    forall x
      ensures x in TargetedOf(hosts) <==> x in Meant(inv, sel)
      ensures x in SelectedOf(hosts) <==> x in Meant(inv, sel)
    {
      if x in Meant(inv, sel) {
        var i :| 0 <= i < |inv.hosts| && inv.hosts[i] == x;
        assert hosts[i] in hosts;
      }
    }
  }

  /** Why a host is targeted: by its own name, and by each named group it is in. */
  lemma {:induction false} ReasonsExact(inv: Inventory, groups: seq<string>, hosts: seq<string>, name: string, g: string)
    requires forall x :: x in groups ==> x in inv.groups
    ensures ByGroup(g) in GroupReasons(inv, groups, name) <==> g in groups && name in inv.groups[g]
    ensures ByHost !in GroupReasons(inv, groups, name)
    ensures var m := MatchHost(inv, Selector(hosts, groups), name);
      && m.name == name && !m.limitExcluded
      && multiset(m.reasons)[ByHost] == (if name in hosts then 1 else 0)
      && (ByGroup(g) in m.reasons <==> g in groups && name in inv.groups[g])
  {
    if groups != [] { ReasonsExact(inv, groups[1..], hosts, name, g); }
  }

  /** Resolution succeeds when every name exists and something is meant, and then targets and
      selects exactly what is meant. */
  lemma ResolveExact(inv: Inventory, sel: Selector)
    ensures Resolve(inv, Some(sel)).Ok? <==>
      && (forall h :: h in sel.hosts ==> h in inv.hosts) && (forall g :: g in sel.groups ==> g in inv.groups)
      && Meant(inv, sel) != {}
    ensures var r := Resolve(inv, Some(sel));
      r.Ok? ==> TargetedOf(r.value) == SelectedOf(r.value) == Meant(inv, sel)
  {
    hide Meant, MatchHost;
    if forall g :: g in sel.groups ==> g in inv.groups {
      MatchHostsExact(inv, sel);
      SomeTargeted(MatchHosts(inv, sel));
    }
  }

  lemma SomeTargeted(hosts: seq<HostMatch>)
    ensures TargetedOf(hosts) != {} <==> exists h :: h in hosts && h.Targeted()
  {
    if exists h :: h in hosts && h.Targeted() {
      var h :| h in hosts && h.Targeted();
      assert h.name in TargetedOf(hosts);
    }
  }

  // -------------------------------------------------------------------- narrowing

  function Narrow(hosts: seq<HostMatch>, allowed: set<string>): (r: seq<HostMatch>)
    ensures |r| == |hosts|
  {
    seq(|hosts|, i requires 0 <= i < |hosts| =>
      if hosts[i].Targeted() && hosts[i].name !in allowed then hosts[i].(limitExcluded := true) else hosts[i])
  }

  function NarrowAll(hosts: seq<HostMatch>, allowed: seq<set<string>>): seq<HostMatch>
    decreases |allowed|
  {
    if allowed == [] then hosts else NarrowAll(Narrow(hosts, allowed[0]), allowed[1..])
  }

  class Resolution {
    var hosts: seq<HostMatch>

    constructor (hosts: seq<HostMatch>)
      ensures this.hosts == hosts
    {
      this.hosts := hosts;
    }

    method ApplyAllowed(allowed: set<string>)
      modifies this
      ensures hosts == Narrow(old(hosts), allowed)
    {
      for i := 0 to |hosts|
        invariant |hosts| == |old(hosts)|
        invariant hosts[..i] == Narrow(old(hosts), allowed)[..i] && hosts[i..] == old(hosts)[i..]
      {
        assert hosts[i] == hosts[i..][0] == old(hosts)[i];
        if hosts[i].Targeted() && hosts[i].name !in allowed {
          hosts := hosts[i := hosts[i].(limitExcluded := true)];
        }
      }
    }
  }

  lemma NarrowSelects(hosts: seq<HostMatch>, allowed: set<string>)
    ensures SelectedOf(Narrow(hosts, allowed)) == SelectedOf(hosts) * allowed
    ensures TargetedOf(Narrow(hosts, allowed)) == TargetedOf(hosts)
  {
    var r := Narrow(hosts, allowed);
    forall x
      ensures x in SelectedOf(r) <==> x in SelectedOf(hosts) && x in allowed
      ensures x in TargetedOf(r) <==> x in TargetedOf(hosts)
    {
      if x in SelectedOf(r) {
        var i :| 0 <= i < |r| && r[i].Selected() && r[i].name == x;
        assert hosts[i] in hosts;
      }
      if x in TargetedOf(r) {
        var i :| 0 <= i < |r| && r[i].Targeted() && r[i].name == x;
        assert hosts[i] in hosts;
      }
      if x in SelectedOf(hosts) && x in allowed {
        var i :| 0 <= i < |hosts| && hosts[i].Selected() && hosts[i].name == x;
        assert r[i] in r;
      }
      if x in TargetedOf(hosts) {
        var i :| 0 <= i < |hosts| && hosts[i].Targeted() && hosts[i].name == x;
        assert r[i] in r;
      }
    }
  }

  ghost predicate InAll(x: string, allowed: seq<set<string>>) { forall a :: a in allowed ==> x in a }

  /** After any number of narrowings, in any order: the selected hosts in every allowed set. */
  lemma {:induction false} NarrowedExact(hosts: seq<HostMatch>, allowed: seq<set<string>>)
    ensures SelectedOf(NarrowAll(hosts, allowed)) ==
      set x | x in SelectedOf(hosts) && InAll(x, allowed)
    ensures TargetedOf(NarrowAll(hosts, allowed)) == TargetedOf(hosts)
    decreases |allowed|
  {
    if allowed != [] {
      NarrowSelects(hosts, allowed[0]);
      NarrowedExact(Narrow(hosts, allowed[0]), allowed[1..]);
      assert allowed == [allowed[0]] + allowed[1..];
    }
  }

  lemma NarrowingOrderFree(hosts: seq<HostMatch>, a: seq<set<string>>, b: seq<set<string>>)
    requires multiset(a) == multiset(b)
    ensures SelectedOf(NarrowAll(hosts, a)) == SelectedOf(NarrowAll(hosts, b))
  {
    NarrowedExact(hosts, a);
    NarrowedExact(hosts, b);
    assert forall s :: s in a <==> s in multiset(a);
    assert forall s :: s in b <==> s in multiset(b);
  }

  // ------------------------------------------------------------------- limit items

  /** The inventory hosts one item names. */
  ghost function Named(inv: Inventory, item: Item): set<string> {
    if item.glob then set h | h in inv.hosts && Glob.Matches(item.text, h)
    else if item.kind != Group && item.text in inv.hosts && (item.kind == Host || item.text !in inv.groups) then {item.text}
    else if item.kind != Host && item.text in inv.groups && (item.kind == Group || item.text !in inv.hosts) then
      Elems(inv.groups[item.text])
    else {}
  }

  predicate IsAmbiguous(inv: Inventory, item: Item) {
    !item.glob && item.kind == Bare && item.text in inv.hosts && item.text in inv.groups
  }

  ghost predicate Names(inv: Inventory, item: Item) { !IsAmbiguous(inv, item) && Named(inv, item) != {} }

  method ItemHosts(inv: Inventory, item: Item) returns (r: Result<set<string>, SelectError>)
    ensures r.Ok? <==> Names(inv, item)
    ensures r.Ok? ==> r.value == Named(inv, item)
  {
    var hosts: set<string> := {};
    if item.glob {
      for i := 0 to |inv.hosts|
        invariant hosts == set h | h in inv.hosts[..i] && Glob.Matches(item.text, h)
      {
        hide Glob.Matches;
        assert inv.hosts[..i + 1] == inv.hosts[..i] + [inv.hosts[i]];
        var m := Glob.GlobMatch(item.text, inv.hosts[i]);
        if m { hosts := hosts + {inv.hosts[i]}; }
      }
      assert inv.hosts[..|inv.hosts|] == inv.hosts;
    } else {
      var asHost, asGroup := item.text in inv.hosts, item.text in inv.groups;
      match item.kind {
        case Host => if asHost { hosts := {item.text}; }
        case Group => if asGroup { hosts := Elems(inv.groups[item.text]); }
        case Bare =>
          if asHost && asGroup { return Err(Ambiguous); }
          if asHost { hosts := {item.text}; }
          else if asGroup { hosts := Elems(inv.groups[item.text]); }
      }
    }
    r := if hosts == {} then Err(NamesNothing) else Ok(hosts);
  }

  /** The hosts all items name together. */
  ghost function AllNamed(inv: Inventory, items: seq<Item>): set<string> {
    set h, i | 0 <= i < |items| && h in Named(inv, items[i]) :: h
  }

  ghost predicate LimitHolds(inv: Inventory, targeted: set<string>, items: seq<Item>) {
    forall i :: 0 <= i < |items| ==> Names(inv, items[i]) && Named(inv, items[i]) * targeted != {}
  }

  ghost function TargetedByAny(resolutions: seq<seq<HostMatch>>): set<string> {
    set h, hosts | hosts in resolutions && h in TargetedOf(hosts) :: h
  }

  /** Accepted when every item names something and reaches a targeted host; then what the
      items name, targeted or not. */
  method MatchLimit(inv: Inventory, resolutions: seq<seq<HostMatch>>, items: seq<Item>)
    returns (r: Result<set<string>, SelectError>)
    ensures r.Ok? <==> LimitHolds(inv, TargetedByAny(resolutions), items)
    ensures r.Ok? ==> r.value == AllNamed(inv, items)
  {
    hide Named, Names;
    var targeted: set<string> := {};
    for k := 0 to |resolutions|
      invariant targeted == TargetedByAny(resolutions[..k])
    {
      assert resolutions[..k + 1] == resolutions[..k] + [resolutions[k]];
      targeted := targeted + TargetedOf(resolutions[k]);
    }
    assert resolutions[..|resolutions|] == resolutions;
    var allowed: set<string> := {};
    for i := 0 to |items|
      invariant LimitHolds(inv, targeted, items[..i]) && allowed == AllNamed(inv, items[..i])
    {
      var hosts := ItemHosts(inv, items[i]);
      if hosts.Err? {
        assert items[i] in items;
        return Err(hosts.error);
      }
      if hosts.value * targeted == {} { return Err(RunsNothing); }
      assert forall j :: 0 <= j < i ==> items[..i + 1][j] == items[..i][j];
      assert AllNamed(inv, items[..i + 1]) == AllNamed(inv, items[..i]) + Named(inv, items[i]);
      allowed := allowed + hosts.value;
    }
    assert items[..|items|] == items;
    r := Ok(allowed);
  }

  /** Narrowing by what a limit names selects exactly the targeted hosts it names, never more. */
  lemma LimitNarrows(inv: Inventory, items: seq<Item>, hosts: seq<HostMatch>, targeted: set<string>)
    requires TargetedOf(hosts) <= targeted
    ensures SelectedOf(Narrow(hosts, AllNamed(inv, items))) == SelectedOf(hosts) * AllNamed(inv, items)
    ensures SelectedOf(Narrow(hosts, AllNamed(inv, items))) <= targeted
  {
    hide Named;
    NarrowSelects(hosts, AllNamed(inv, items));
  }

  /** An item that can only name one host. */
  predicate IsHostItem(inv: Inventory, item: Item) { !item.glob && item.kind != Group && item.text in inv.hosts }

  /** A pattern whose matches are all targeted, or a group whose members are. */
  ghost predicate AllTargeted(inv: Inventory, targeted: set<string>, item: Item) {
    if item.glob then forall h :: h in inv.hosts && Glob.Matches(item.text, h) ==> h in targeted
    else item.text in inv.groups ==> forall m :: m in inv.groups[item.text] ==> m in targeted
  }

  /** What an accepted limit names lies inside the targeted hosts exactly when every pattern matches
      and every group holds targeted hosts only; the hosts it lists one by one always are. */
  lemma LimitStaysInside(inv: Inventory, items: seq<Item>, targeted: set<string>)
    requires LimitHolds(inv, targeted, items)
    ensures AllNamed(inv, items) <= targeted <==>
      forall i :: 0 <= i < |items| && !IsHostItem(inv, items[i]) ==> AllTargeted(inv, targeted, items[i])
  {
    hide Glob.Matches;
    forall i | 0 <= i < |items|
      ensures IsHostItem(inv, items[i]) ==> Named(inv, items[i]) <= targeted
      ensures !IsHostItem(inv, items[i]) ==> (Named(inv, items[i]) <= targeted <==> AllTargeted(inv, targeted, items[i]))
    {
      ItemInside(inv, items[i], targeted);
    }
    forall i | 0 <= i < |items|
      ensures Named(inv, items[i]) <= AllNamed(inv, items)
    {
    }
  }

  lemma ItemInside(inv: Inventory, item: Item, targeted: set<string>)
    requires Names(inv, item) && Named(inv, item) * targeted != {}
    ensures IsHostItem(inv, item) ==> Named(inv, item) <= targeted
    ensures !IsHostItem(inv, item) ==> (Named(inv, item) <= targeted <==> AllTargeted(inv, targeted, item))
  {
    hide Glob.Matches;
    var h :| h in Named(inv, item) * targeted;
  }

  /** It can name more: `*` with only one of two hosts targeted. */
  lemma LimitMayNameMore()
    ensures exists inv, items, targeted ::
      && WellFormed(inv) && LimitHolds(inv, targeted, items) && targeted <= Elems(inv.hosts)
      && !(AllNamed(inv, items) <= targeted)
  {
    var inv := Inventory(["db", "web"], map[]);
    var item := Item(Bare, "*", true);
    assert Glob.Matches("*", "db") && Glob.Matches("*", "web") by {
      assert "db"[2..] == "" && "web"[3..] == "" && "*"[1..] == "";
    }
    assert "db" in Named(inv, item) && "web" in Named(inv, item);
    assert "web" in Named(inv, item) * {"web"};
    assert LimitHolds(inv, {"web"}, [item]);
    assert "db" in Named(inv, [item][0]);
    assert "db" in AllNamed(inv, [item]);
    assert !(AllNamed(inv, [item]) <= {"web"});
  }

  // --------------------------------------------------------------------- selectors

  /** Items of a selector: a host or a group, never a pattern. */
  predicate SelectorItems(items: seq<Item>) { forall i :: 0 <= i < |items| ==> items[i].kind != Bare && !items[i].glob }

  /** What the items stand for when the recipe declares no targets. */
  method SelectorTargets(inv: Inventory, items: seq<Item>) returns (r: Result<Selector, SelectError>)
    requires WellFormed(inv) && SelectorItems(items)
    ensures r.Ok? <==> forall i :: 0 <= i < |items| ==> Names(inv, items[i])
    ensures r.Ok? ==>
      && (forall h :: h in r.value.hosts ==> h in inv.hosts) && (forall g :: g in r.value.groups ==> g in inv.groups)
      && Meant(inv, r.value) == AllNamed(inv, items)
  {
    hide Meant, AllNamed;
    var hosts: seq<string>, groups: seq<string> := [], [];
    NothingMeant(inv);
    for i := 0 to |items|
      invariant forall j :: 0 <= j < i ==> Names(inv, items[j])
      invariant (forall h :: h in hosts ==> h in inv.hosts) && (forall g :: g in groups ==> g in inv.groups)
      invariant Meant(inv, Selector(hosts, groups)) == AllNamed(inv, items[..i])
    {
      var item := items[i];
      var named := ItemHosts(inv, item);
      if named.Err? { return Err(named.error); }
      ghost var before := Selector(hosts, groups);
      if item.kind == Group {
        if item.text !in groups { groups := groups + [item.text]; }
      } else {
        if item.text !in hosts { hosts := hosts + [item.text]; }
      }
      MeantMore(inv, before, Selector(hosts, groups), items, i);
    }
    assert items[..|items|] == items;
    r := Ok(Selector(hosts, groups));
  }

  lemma NothingMeant(inv: Inventory)
    ensures Meant(inv, Selector([], [])) == AllNamed(inv, [])
  {
  }

  lemma MeantMore(inv: Inventory, before: Selector, after: Selector, items: seq<Item>, i: nat)
    requires WellFormed(inv) && i < |items| && Names(inv, items[i]) && items[i].kind != Bare && !items[i].glob
    requires Meant(inv, before) == AllNamed(inv, items[..i])
    requires items[i].kind == Group ==>
      after.hosts == before.hosts && Elems(after.groups) == Elems(before.groups) + {items[i].text}
    requires items[i].kind == Host ==>
      after.groups == before.groups && Elems(after.hosts) == Elems(before.hosts) + {items[i].text}
    ensures Meant(inv, after) == AllNamed(inv, items[..i + 1])
  {
    assert forall j :: 0 <= j < i ==> items[..i + 1][j] == items[..i][j];
    assert AllNamed(inv, items[..i + 1]) == AllNamed(inv, items[..i]) + Named(inv, items[i]);
    assert forall x :: x in after.groups <==> x in Elems(after.groups);
    assert forall x :: x in before.groups <==> x in Elems(before.groups);
    assert forall x :: x in after.hosts <==> x in Elems(after.hosts);
    assert forall x :: x in before.hosts <==> x in Elems(before.hosts);
    assert Meant(inv, after) == Meant(inv, before) + Named(inv, items[i]);
  }

  method ResolveWithSelector(inv: Inventory, targets: Option<Selector>, items: seq<Item>, inBundle: bool)
    returns (r: Result<seq<HostMatch>, SelectError>)
    requires WellFormed(inv) && SelectorItems(items)
    ensures targets.Some? ==> r == Resolve(inv, targets)
    ensures targets.None? && inBundle ==> r == Err(BundleNeedsTargets)
    ensures targets.None? && !inBundle ==>
      && (r.Ok? <==> items != [] && forall i :: 0 <= i < |items| ==> Names(inv, items[i]))
      && (r.Ok? ==> TargetedOf(r.value) == SelectedOf(r.value) == AllNamed(inv, items))
  {
    if targets.Some? { return Resolve(inv, targets); }
    if inBundle { return Err(BundleNeedsTargets); }
    hide Resolve;
    var sel := SelectorTargets(inv, items);
    if sel.Err? { return Err(sel.error); }
    ResolveExact(inv, sel.value);
    if items != [] { FirstNamed(inv, items); }
    r := Resolve(inv, Some(sel.value));
  }

  lemma FirstNamed(inv: Inventory, items: seq<Item>)
    requires items != [] && Names(inv, items[0])
    ensures AllNamed(inv, items) != {}
  {
    hide Named;
    var h :| h in Named(inv, items[0]);
    assert h in AllNamed(inv, items);
  }

  lemma TargetedByOne(hosts: seq<HostMatch>)
    ensures TargetedByAny([hosts]) == TargetedOf(hosts)
  {
    assert forall h :: h in [hosts] <==> h == hosts;
  }

  lemma NamedReachThemselves(inv: Inventory, items: seq<Item>)
    requires forall i :: 0 <= i < |items| ==> Names(inv, items[i])
    ensures LimitHolds(inv, AllNamed(inv, items), items)
  {
    hide Named;
    forall i | 0 <= i < |items|
      ensures Named(inv, items[i]) * AllNamed(inv, items) != {}
    {
      assert Named(inv, items[i]) <= AllNamed(inv, items);
      assert Named(inv, items[i]) * AllNamed(inv, items) == Named(inv, items[i]);
    }
  }

  /** A selector on one plain recipe without targets ends up selecting exactly the hosts and
      group members it names: resolving, matching the limit and narrowing all agree. */
  method SelectorRun(inv: Inventory, items: seq<Item>) returns (r: Result<seq<HostMatch>, SelectError>)
    requires WellFormed(inv) && SelectorItems(items)
    ensures r.Ok? <==> items != [] && forall i :: 0 <= i < |items| ==> Names(inv, items[i])
    ensures r.Ok? ==> SelectedOf(r.value) == AllNamed(inv, items)
  {
    hide Named, Narrow, Names, AllNamed, TargetedOf, SelectedOf, TargetedByAny, LimitHolds;
    var resolved := ResolveWithSelector(inv, None, items, false);
    if resolved.Err? { return resolved; }
    var hosts := resolved.value;
    var allowed := MatchLimit(inv, [hosts], items);
    NamedReachThemselves(inv, items);
    assert TargetedByAny([hosts]) == TargetedOf(hosts) by { TargetedByOne(hosts); }
    NarrowSelects(hosts, allowed.value);
    assert AllNamed(inv, items) * AllNamed(inv, items) == AllNamed(inv, items);
    var resolution := new Resolution(hosts);
    resolution.ApplyAllowed(allowed.value);
    r := Ok(resolution.hosts);
  }
}
