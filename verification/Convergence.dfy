/** The account resources reach the declared state, stay there, and leave everything else alone. */
module Convergence {
  import opened Wrappers
  import opened Text
  import opened AccountTools
  import opened Accounts
  import opened AccountArgs

  // What the comparison decides.

  /** The declared user is as declared in the local databases, its password aside. */
  predicate AccountSettled(d: UserDesired, db: Db) {
    if !d.present then d.name !in db.users && d.name !in db.nssUsers
    else
      && d.name in db.users
      && (d.uid.Some? ==> db.users[d.name].uid == d.uid.value)
      && (d.group.Some? ==> d.group.value in db.groups && db.groups[d.group.value].gid == db.users[d.name].gid)
      && (d.shell.Some? ==> db.users[d.name].shell == d.shell.value)
      && (d.home.Some? ==> db.users[d.name].home == d.home.value)
      && (forall g :: g in d.groups ==> g in db.groups && d.name in db.groups[g].members)
  }

  /** The declared user is as declared, password included. */
  predicate UserSettled(d: UserDesired, pw: Option<string>, db: Db) {
    && AccountSettled(d, db)
    && (d.present && pw.Some? ==> d.name in db.shadow && Relate(db.shadow[d.name], pw.value) == Same)
  }

  predicate GroupSettled(d: GroupDesired, db: Db) {
    if !d.present then d.name !in db.groups && d.name !in db.nssGroups
    else d.name in db.groups && (d.gid.Some? ==> db.groups[d.name].gid == d.gid.value)
  }

  /** Which groups the comparison lists as missing a member, or as missing. */
  lemma {:induction false} MembershipsExact(db: Db, names: seq<string>, user: string, k: string)
    ensures k in MissingMemberships(LookupAll(db, names), user)
      <==> k in names && k in db.groups && user !in db.groups[k].members
    ensures k in Nonexistent(LookupAll(db, names))
      <==> k in names && k !in db.groups && k !in db.nssGroups
  {
    var all := LookupAll(db, names);
    if names != [] {
      MembershipsExact(db, names[1..], user, k);
      assert all[1..] == LookupAll(db, names[1..]);
      assert names == [names[0]] + names[1..];
      assert all[0] == (names[0], LookupGroup(db, names[0]));
    }
  }

  lemma GroupsSettled(db: Db, d: UserDesired)
    requires d.present
    requires forall i :: 0 <= i < |d.groups| ==> !LookupGroup(db, d.groups[i]).NssOnly?
    ensures
      var o := Observe(db, d);
      (MissingMemberships(o.supplementary, d.name) == [] && Nonexistent(o.supplementary) == [])
      <==> forall g :: g in d.groups ==> g in db.groups && d.name in db.groups[g].members
  {
    hide MissingMemberships, Nonexistent;
    var all := LookupAll(db, d.groups);
    forall k
      ensures k in MissingMemberships(all, d.name) <==> k in d.groups && k in db.groups && d.name !in db.groups[k].members
      ensures k in Nonexistent(all) <==> k in d.groups && k !in db.groups && k !in db.nssGroups
    {
      MembershipsExact(db, d.groups, d.name, k);
    }
    if MissingMemberships(all, d.name) != [] {
      assert MissingMemberships(all, d.name)[0] in d.groups;
    }
    if Nonexistent(all) != [] {
      assert Nonexistent(all)[0] in d.groups;
    }
  }

  lemma LocalExact(d: UserDesired, o: UserObservation, u: UserRec)
    ensures CompareLocal(d, o, u) == [] <==>
      && (d.uid.Some? ==> d.uid.value == u.uid)
      && (d.group.Some? && o.primary.Some? ==> o.primary.value.Local? && o.primary.value.record.gid == u.gid)
      && (d.shell.Some? ==> d.shell.value == u.shell)
      && (d.home.Some? ==> d.home.value == u.home)
      && MissingMemberships(o.supplementary, d.name) == [] && Nonexistent(o.supplementary) == []
  {
  }

  /** A declared group that only another source provides stops the comparison. */
  lemma NssGroup(db: Db, d: UserDesired)
    requires d.present
    ensures (exists i :: 0 <= i < |Observe(db, d).supplementary| && Observe(db, d).supplementary[i].1.NssOnly?)
      <==> exists i :: 0 <= i < |d.groups| && LookupGroup(db, d.groups[i]).NssOnly?
  {
    var supplementary := Observe(db, d).supplementary;
    assert forall i :: 0 <= i < |d.groups| ==> supplementary[i] == (d.groups[i], LookupGroup(db, d.groups[i]));
    if i :| 0 <= i < |d.groups| && LookupGroup(db, d.groups[i]).NssOnly? {
      assert supplementary[i].1.NssOnly?;
    }
  }

  lemma CompareExact(d: UserDesired, db: Db)
    ensures
      var c := CompareUser(d, Observe(db, d));
      && (c.Ok? && c.value.dims == [] <==> AccountSettled(d, db))
      && (AccountSettled(d, db) ==> c == Ok(Compare([], [], [])))
  {
    hide MissingMemberships, Nonexistent, CompareLocal, LookupAll;
    if d.present {
      NssGroup(db, d);
      if d.name in db.users {
        LocalExact(d, Observe(db, d), db.users[d.name]);
      }
      if i :| 0 <= i < |d.groups| && LookupGroup(db, d.groups[i]).NssOnly? {
        assert d.groups[i] in d.groups;
      } else {
        GroupsSettled(db, d);
        assert AccountSettled(d, db) ==> MissingGroups(d, Observe(db, d)) == [];
      }
    }
  }

  /** No differing dimension: exactly the declared state, and then nothing is refused or missing. */
  lemma DriftExact(d: UserDesired, pw: Option<string>, db: Db)
    requires pw.Some? ==> d.present
    ensures Drift(d, pw, db).Ok? && Drift(d, pw, db).value.dims == [] <==> UserSettled(d, pw, db)
    ensures UserSettled(d, pw, db) ==> Drift(d, pw, db) == Ok(Compare([], [], []))
  {
    hide CompareUser, Relate, LookupAll;
    CompareExact(d, db);
  }

  // What the emitted commands do.

  predicate SameSources(db: Db, after: Db) { after.nssUsers == db.nssUsers && after.nssGroups == db.nssGroups }

  /** Every group of before is still there with its gid, and gained the user exactly when named. */
  predicate JoinedOnly(db: Db, after: Db, names: set<string>, user: string) {
    forall g :: g in db.groups ==>
      && g in after.groups
      && after.groups[g].gid == db.groups[g].gid
      && after.groups[g].members == (if g in names then db.groups[g].members + {user} else db.groups[g].members)
  }

  predicate Declared(d: UserDesired, db: Db, u: UserRec) {
    && (d.group.Some? ==> d.group.value in db.groups && u.gid == db.groups[d.group.value].gid)
    && (d.shell.Some? ==> u.shell == d.shell.value)
    && (d.home.Some? ==> u.home == d.home.value)
  }

  /** The primary group of a user declared without one: its own, with its uid where that is free as a gid,
      or the default. */
  predicate OwnGroup(pol: Policy, name: string, uid: nat, gid: nat, db: Db, groups: map<string, GroupRec>) {
    if !pol.userGroups then gid == pol.defaultGid
    else
      && name in groups && groups[name].gid == gid
      && gid == if GidTaken(db, uid) then pol.pick(db, false) else uid
  }

  predicate Created(pol: Policy, d: UserDesired, db: Db, after: Db) {
    && SameSources(db, after)
    && d.name in after.users && after.users == db.users[d.name := after.users[d.name]]
    && after.users[d.name].uid == (if d.uid.Some? then d.uid.value else pol.pick(db, d.system))
    && Declared(d, db, after.users[d.name])
    && (d.group.None? ==> OwnGroup(pol, d.name, after.users[d.name].uid, after.users[d.name].gid, db, after.groups))
    && (d.shell.None? ==> after.users[d.name].shell == pol.defaultShell)
    && (d.home.None? ==> after.users[d.name].home == pol.defaultHome(d.name))
    && after.groups.Keys == db.groups.Keys + (if d.group.None? && pol.userGroups then {d.name} else {})
    && JoinedOnly(db, after, Names(d.groups), d.name)
    && after.shadow == db.shadow[d.name := pol.initialShadow]
  }

  predicate MayCreate(pol: Policy, d: UserDesired, db: Db) {
    && d.name !in db.users
    && !UidTaken(db, if d.uid.Some? then d.uid.value else pol.pick(db, d.system))
    && (if d.group.Some? then d.group.value in db.groups else d.name !in db.groups)
    && forall g :: g in d.groups ==> g in db.groups
  }

  lemma PrimaryExact(pol: Policy, db: Db, name: string, uid: nat, group: Option<string>, system: bool)
    requires if group.Some? then group.value in db.groups else name !in db.groups
    ensures var r := PrimaryGroup(pol, db, name, uid, group, system);
      && r.Some?
      && (group.Some? ==> r.value.0 == db.groups[group.value].gid)
      && (group.None? ==> OwnGroup(pol, name, uid, r.value.0, db, r.value.1))
      && r.value.1.Keys == db.groups.Keys + (if group.None? && pol.userGroups then {name} else {})
      && forall g :: g in db.groups ==> r.value.1[g] == db.groups[g]
  {
  }

  lemma AddExact(groups: map<string, GroupRec>, names: set<string>, user: string)
    ensures var after := AddMember(groups, names, user);
      && after.Keys == groups.Keys
      && (forall g :: g in groups && g in names ==> after[g] == GroupRec(groups[g].gid, groups[g].members + {user}))
      && (forall g :: g in groups && g !in names ==> after[g] == groups[g])
      && (forall g :: g in groups ==> after[g].gid == groups[g].gid)
  {
  }

  /** The record of a new user, from its options and the defaults. */
  function NewUser(pol: Policy, d: UserDesired, uid: nat, gid: nat): UserRec {
    UserRec(uid, gid,
      if d.home.Some? then d.home.value else pol.defaultHome(d.name),
      if d.shell.Some? then d.shell.value else pol.defaultShell)
  }

  lemma UseraddRuns(pol: Policy, d: UserDesired, db: Db, p: Parsed)
    requires MayCreate(pol, d, db)
    requires p.name == Some(d.name) && p.Value('g') == d.group && p.Value('s') == d.shell && p.Value('d') == d.home
    requires "--system" in p.flags <==> d.system
    requires IdOption(p.Value('u'), pol.pick(db, d.system))
      == Some(if d.uid.Some? then d.uid.value else pol.pick(db, d.system))
    requires GroupList(p.Value('G')) == Names(d.groups)
    ensures
      var uid := if d.uid.Some? then d.uid.value else pol.pick(db, d.system);
      var primary := PrimaryGroup(pol, db, d.name, uid, d.group, d.system);
      && primary.Some?
      && RunUseradd(pol, db, p) == Some(db.(users := db.users[d.name := NewUser(pol, d, uid, primary.value.0)],
                                            groups := AddMember(primary.value.1, Names(d.groups), d.name),
                                            shadow := db.shadow[d.name := pol.initialShadow]))
  {
    hide IdOption, GroupList, UidTaken, GidTaken, PrimaryGroup, AddMember;
    assert GroupList(p.Value('G')) <= db.groups.Keys;
    PrimaryExact(pol, db, d.name, if d.uid.Some? then d.uid.value else pol.pick(db, d.system), d.group, d.system);
  }

  lemma RunIsCreated(pol: Policy, d: UserDesired, db: Db, uid: nat, after: Db)
    requires MayCreate(pol, d, db) && uid == if d.uid.Some? then d.uid.value else pol.pick(db, d.system)
    requires PrimaryGroup(pol, db, d.name, uid, d.group, d.system).Some?
    requires var primary := PrimaryGroup(pol, db, d.name, uid, d.group, d.system).value;
      after == db.(users := db.users[d.name := NewUser(pol, d, uid, primary.0)],
                   groups := AddMember(primary.1, Names(d.groups), d.name),
                   shadow := db.shadow[d.name := pol.initialShadow])
    ensures Created(pol, d, db, after)
  {
    hide PrimaryGroup, AddMember, UidTaken;
    PrimaryExact(pol, db, d.name, uid, d.group, d.system);
    AddExact(PrimaryGroup(pol, db, d.name, uid, d.group, d.system).value.1, Names(d.groups), d.name);
  }

  /** The emitted `useradd` creates the declared user and adds it to the declared groups. */
  lemma UseraddCreates(pol: Policy, d: UserDesired, db: Db)
    requires ValidUser(d) && MayCreate(pol, d, db)
    ensures var after := Exec(pol, db, Useradd(UseraddArgs(d)));
      after.Some? && Created(pol, d, db, after.value)
  {
    hide Parse, UseraddArgs, ListText, IdText, IdOption, GroupList, RunUseradd, Created, MayCreate, AddMember, PrimaryGroup,
      NewUser;
    UseraddReads(d);
    IdReads(d.uid, pol.pick(db, d.system));
    GroupsRead(d.groups);
    UseraddRuns(pol, d, db, Parse(UseraddTool, UseraddArgs(d)).value);
    RunIsCreated(pol, d, db, if d.uid.Some? then d.uid.value else pol.pick(db, d.system),
      Exec(pol, db, Useradd(UseraddArgs(d))).value);
  }

  /** When it does: the name and the uid are free, the declared groups exist, and where the user gets a
      group of its own no group has its name. */
  lemma UseraddExact(pol: Policy, d: UserDesired, db: Db)
    requires ValidUser(d)
    ensures Exec(pol, db, Useradd(UseraddArgs(d))).Some? <==>
      && d.name !in db.users
      && !UidTaken(db, if d.uid.Some? then d.uid.value else pol.pick(db, d.system))
      && (forall g :: g in d.groups ==> g in db.groups)
      && (if d.group.Some? then d.group.value in db.groups else pol.userGroups ==> d.name !in db.groups)
  {
    hide ParseArgs, UseraddArgs, ListText, IdText, IdOption, GroupList, ValidId, ValidAccountName, AddMember, UidTaken,
      GidTaken;
    UseraddReads(d);
    IdReads(d.uid, pol.pick(db, d.system));
    GroupsRead(d.groups);
  }

  /** `groupadd` succeeds exactly when the name and the gid are free, and adds the group without members. */
  lemma GroupaddExact(pol: Policy, d: GroupDesired, db: Db)
    requires ValidGroup(d)
    ensures var gid := if d.gid.Some? then d.gid.value else pol.pick(db, d.system);
      Exec(pol, db, Groupadd(GroupaddArgs(d))) ==
      if d.name in db.groups || GidTaken(db, gid) then None else Some(db.(groups := db.groups[d.name := GroupRec(gid, {})]))
  {
    hide ParseArgs, GroupaddArgs, IdText, IdOption, ValidId, ValidAccountName, GidTaken;
    GroupaddReads(d);
    IdReads(d.gid, pol.pick(db, d.system));
  }

  predicate Modified(d: UserDesired, db: Db, after: Db)
    requires d.name in db.users
  {
    && SameSources(db, after)
    && d.name in after.users && after.users == db.users[d.name := after.users[d.name]]
    && after.users[d.name].uid == db.users[d.name].uid
    && Declared(d, db, after.users[d.name])
    && (d.group.None? ==> after.users[d.name].gid == db.users[d.name].gid)
    && (d.shell.None? ==> after.users[d.name].shell == db.users[d.name].shell)
    && (d.home.None? ==> after.users[d.name].home == db.users[d.name].home)
    && after.groups.Keys == db.groups.Keys
    && JoinedOnly(db, after, Names(d.groups), d.name)
    && after.shadow == db.shadow
  }

  predicate MayModify(d: UserDesired, db: Db) {
    && d.present && d.name in db.users
    && (d.group.Some? ==> d.group.value in db.groups)
    && forall g :: g in d.groups ==> g in db.groups
  }

  lemma MissingNames(db: Db, d: UserDesired)
    requires d.present
    ensures var missing := MissingMemberships(Observe(db, d).supplementary, d.name);
      forall k :: k in missing <==> k in d.groups && k in db.groups && d.name !in db.groups[k].members
  {
    hide MissingMemberships;
    forall k ensures k in MissingMemberships(LookupAll(db, d.groups), d.name)
      <==> k in d.groups && k in db.groups && d.name !in db.groups[k].members
    {
      MembershipsExact(db, d.groups, d.name, k);
    }
  }

  /** The emitted `usermod` makes the declared changes and no other; a home directory in use stops it. */
  lemma UsermodModifies(pol: Policy, d: UserDesired, db: Db)
    requires ValidUser(d) && MayModify(d, db)
    ensures var after := Exec(pol, db, Usermod(UsermodArgs(d, Observe(db, d), db.users[d.name])));
      (after.None? <==> d.name in pol.busy && d.home.Some? && d.home.value != db.users[d.name].home)
      && (after.Some? ==> Modified(d, db, after.value))
  {
    hide Parse, UsermodArgs, ListText, ValidAccountName, ValidId, GroupList, MissingMemberships;
    var o, u := Observe(db, d), db.users[d.name];
    var missing := MissingMemberships(o.supplementary, d.name);
    UsermodReads(d, o, u);
    MissingNames(db, d);
    var p := Parse(UsermodTool, UsermodArgs(d, o, u)).value;
    GroupsRead(missing);
    assert GroupList(p.Value('G')) <= db.groups.Keys;
    ListNone(missing);
  }

  lemma ListNone(names: seq<string>)
    ensures ListText(names).None? <==> names == []
  {
  }

  /** `userdel` removes the user, its memberships and possibly its private group. */
  predicate Deleted(d: UserDesired, db: Db, after: Db) {
    && SameSources(db, after)
    && after.users == db.users - {d.name}
    && after.shadow == db.shadow - {d.name}
    && (forall g :: g in db.groups && g != d.name ==> g in after.groups)
    && after.groups.Keys <= db.groups.Keys
    && forall g :: g in after.groups ==>
      after.groups[g].gid == db.groups[g].gid && after.groups[g].members == db.groups[g].members - {d.name}
  }

  lemma UserdelDeletes(pol: Policy, d: UserDesired, db: Db)
    requires ValidAccountName(d.name) && d.name in db.users
    ensures var after := Exec(pol, db, Userdel([d.name]));
      (after.None? <==> d.name in pol.busy) && (after.Some? ==> Deleted(d, db, after.value))
  {
    hide PrivateGroupGoes;
    assert [d.name][0] == d.name;
  }

  /** The user's own group goes with it exactly when the distribution makes such groups, its gid is the
      user's and it is no other user's primary group. */
  lemma UserdelGroup(pol: Policy, d: UserDesired, db: Db)
    requires ValidAccountName(d.name) && d.name in db.users && d.name in db.groups
    ensures var after := Exec(pol, db, Userdel([d.name]));
      after.Some? ==>
        (d.name !in after.value.groups <==>
           && pol.userGroups && db.groups[d.name].gid == db.users[d.name].gid
           && forall n :: n in db.users && n != d.name ==> db.users[n].gid != db.groups[d.name].gid)
  {
    assert [d.name][0] == d.name;
  }

  // Convergence.

  /** The distribution never picks an id that is in use for a new account. */
  ghost predicate PicksFresh(pol: Policy) {
    forall db, system :: !UidTaken(db, pol.pick(db, system)) && !GidTaken(db, pol.pick(db, system))
  }

  /** What an acceptable desired user with its password is. */
  predicate Acceptable(d: UserDesired, pw: Option<string>) {
    ValidUser(d) && (pw.Some? ==> ValidHash(pw.value))
  }

  /** Processes of the user stop `userdel`, and a `usermod` that records another home directory. */
  predicate InTheWay(pol: Policy, d: UserDesired, db: Db) {
    && d.name in pol.busy && d.name in db.users
    && (!d.present || (d.home.Some? && d.home.value != db.users[d.name].home))
  }

  lemma {:induction false} ExecAllConcat(pol: Policy, db: Db, a: seq<Command>, b: seq<Command>)
    ensures ExecAll(pol, db, a + b) ==
      var (mid, ok) := ExecAll(pol, db, a);
      if ok then ExecAll(pol, mid, b) else (mid, false)
    decreases |a|
  {
    if a == [] {
      assert a + b == b;
    } else {
      assert (a + b)[1..] == a[1..] + b;
      match Exec(pol, db, a[0])
      case None =>
      case Some(after) => ExecAllConcat(pol, after, a[1..], b);
    }
  }

  lemma {:induction false} AttemptedConcat(pol: Policy, db: Db, a: seq<Command>, b: seq<Command>)
    ensures Attempted(pol, db, a + b) ==
      Attempted(pol, db, a) + if ExecAll(pol, db, a).1 then Attempted(pol, ExecAll(pol, db, a).0, b) else []
    decreases |a|
  {
    if a == [] {
      assert a + b == b;
    } else {
      assert (a + b)[1..] == a[1..] + b;
      match Exec(pol, db, a[0])
      case None =>
      case Some(after) => AttemptedConcat(pol, after, a[1..], b);
    }
  }

  /** Every declared group is local once none is missing and none comes from another source. */
  lemma GroupsLocal(db: Db, d: UserDesired)
    requires d.present
    requires CompareUser(d, Observe(db, d)).Ok? && CompareUser(d, Observe(db, d)).value.missing == []
    ensures d.group.Some? ==> d.group.value in db.groups
    ensures forall g :: g in d.groups ==> g in db.groups
  {
    hide MissingMemberships, Nonexistent, CompareLocal;
    var o := Observe(db, d);
    forall g | g in d.groups ensures g in db.groups {
      var i :| 0 <= i < |d.groups| && d.groups[i] == g;
      assert o.supplementary[i] == (g, LookupGroup(db, g));
      MembershipsExact(db, d.groups, d.name, g);
      assert Nonexistent(o.supplementary) == [];
    }
  }

  /** What a decision to change a user rests on. */
  lemma ChangeMeans(s: Session, pol: Policy, d: UserDesired, pw: Option<string>, db: Db)
    requires PicksFresh(pol) && UserDecision(s, d, pw, db).Change?
    ensures pw.Some? ==> d.present
    ensures d.name in db.users || d.name !in db.nssUsers
    ensures d.name !in db.users ==> d.present && MayCreate(pol, d, db)
    ensures d.name in db.users && d.present ==> MayModify(d, db)
    ensures d.name in db.users && d.present && d.uid.Some? ==> db.users[d.name].uid == d.uid.value
  {
    hide MissingMemberships, Nonexistent, UserCommands, CompareLocal, Relate, UidTaken;
    if d.present {
      GroupsLocal(db, d);
    }
  }

  lemma SelfRelates(h: string)
    requires ValidHash(h)
    ensures Relate(h, h) == Same
  {
  }

  /** The dimensions a change is about. */
  lemma ChangeDims(s: Session, d: UserDesired, pw: Option<string>, db: Db)
    requires UserDecision(s, d, pw, db).Change?
    ensures var dims := UserDecision(s, d, pw, db).dims;
      if d.name in db.users && d.present then
        && dims == CompareLocal(d, Observe(db, d), db.users[d.name])
          + When(pw.Some? && !(d.name in db.shadow && Relate(db.shadow[d.name], pw.value) == Same), PasswordHash)
        && (pw.Some? ==> d.name in db.shadow && Relate(db.shadow[d.name], pw.value) != DiffersLocked)
      else dims == [State]
  {
    hide MissingMemberships, Nonexistent, UserCommands, CompareLocal, Relate, UidTaken, LookupAll, MissingGroups,
      UserPreChecks;
  }

  lemma LocalDims(d: UserDesired, o: UserObservation, u: UserRec)
    ensures PasswordHash !in CompareLocal(d, o, u)
  {
  }

  lemma AnotherDim(a: seq<Dimension>, b: seq<Dimension>, x: Dimension)
    requires a != [] && x !in a
    ensures exists y :: y in a + b && y != x
  {
    assert a[0] in a && (a + b)[0] == a[0] && a[0] in a + b;
  }

  /** Only the password differs: everything else is already as declared. */
  lemma PasswordOnly(s: Session, d: UserDesired, pw: Option<string>, db: Db)
    requires d.present && d.name in db.users && UserDecision(s, d, pw, db).Change?
    requires forall x :: x in UserDecision(s, d, pw, db).dims ==> x == PasswordHash
    ensures UserSettled(d, None, db)
  {
    hide UserDecision, CompareLocal, Relate;
    var dims := CompareLocal(d, Observe(db, d), db.users[d.name]);
    ChangeDims(s, d, pw, db);
    LocalDims(d, Observe(db, d), db.users[d.name]);
    if dims != [] {
      AnotherDim(dims, When(pw.Some? && !(d.name in db.shadow && Relate(db.shadow[d.name], pw.value) == Same), PasswordHash),
        PasswordHash);
      assert false;
    }
    NoLocalDrift(s, d, pw, db);
    DriftExact(d, None, db);
  }

  lemma NoLocalDrift(s: Session, d: UserDesired, pw: Option<string>, db: Db)
    requires d.present && d.name in db.users && UserDecision(s, d, pw, db).Change?
    requires CompareLocal(d, Observe(db, d), db.users[d.name]) == []
    ensures Drift(d, None, db).Ok? && Drift(d, None, db).value.dims == []
  {
    hide MissingMemberships, Nonexistent, UserCommands, CompareLocal, Relate, UidTaken, LookupAll, MissingGroups,
      UserPreChecks;
  }

  /** After the account command, everything but the password is as declared. */
  lemma BaseReaches(s: Session, pol: Policy, d: UserDesired, pw: Option<string>, db: Db)
    requires PicksFresh(pol) && Acceptable(d, pw) && d.present && UserDecision(s, d, pw, db).Change?
    ensures var (mid, ok) := ExecAll(pol, db, BaseCommands(d, Observe(db, d), UserDecision(s, d, pw, db).dims));
      (ok <==> !InTheWay(pol, d, db))
      && (ok ==> UserSettled(d, None, mid))
      && (ok ==> mid.shadow == if d.name in db.users then db.shadow else db.shadow[d.name := pol.initialShadow])
  {
    hide UserDecision, CompareLocal, Relate, Exec, ValidUser, MayCreate, MayModify, UserSettled, UseraddArgs, UsermodArgs,
      Modified, Created;
    ChangeMeans(s, pol, d, pw, db);
    ChangeDims(s, d, pw, db);
    var o, dims := Observe(db, d), UserDecision(s, d, pw, db).dims;
    if d.name !in db.users {
      UseraddCreates(pol, d, db);
      assert State in dims;
      var c := Useradd(UseraddArgs(d));
      assert BaseCommands(d, o, dims) == [c];
      OneCommand(pol, db, c);
      CreatedSettles(pol, d, db, Exec(pol, db, c).value);
    } else if forall x :: x in dims ==> x == PasswordHash {
      PasswordOnly(s, d, pw, db);
      HomeSettled(d, db);
    } else {
      UsermodModifies(pol, d, db);
      var c := Usermod(UsermodArgs(d, o, db.users[d.name]));
      assert BaseCommands(d, o, dims) == [c];
      OneCommand(pol, db, c);
      if Exec(pol, db, c).Some? {
        ModifiedSettles(d, db, Exec(pol, db, c).value);
      }
    }
  }

  lemma OneCommand(pol: Policy, db: Db, c: Command)
    ensures ExecAll(pol, db, [c]) ==
      if Exec(pol, db, c).Some? then (Exec(pol, db, c).value, true) else (db, false)
    ensures Attempted(pol, db, [c]) == [c]
  {
    assert [c][1..] == [];
  }

  lemma HomeSettled(d: UserDesired, db: Db)
    requires d.present && UserSettled(d, None, db)
    ensures d.name in db.users && (d.home.Some? ==> d.home.value == db.users[d.name].home)
  {
  }

  lemma CreatedSettles(pol: Policy, d: UserDesired, db: Db, after: Db)
    requires d.present && MayCreate(pol, d, db) && Created(pol, d, db, after)
    ensures UserSettled(d, None, after) && after.shadow == db.shadow[d.name := pol.initialShadow]
  {
  }

  lemma ModifiedSettles(d: UserDesired, db: Db, after: Db)
    requires MayModify(d, db) && Modified(d, db, after)
    requires d.uid.Some? ==> db.users[d.name].uid == d.uid.value
    ensures UserSettled(d, None, after) && after.shadow == db.shadow
  {
  }

  // The main results for users.

  /** A changing run ends in the declared state: unless a process is in the way, and unless a
      deleted user is then still provided by another identity source. */
  lemma UserReaches(s: Session, pol: Policy, d: UserDesired, pw: Option<string>, db: Db)
    requires PicksFresh(pol) && Acceptable(d, pw) && UserDecision(s, d, pw, db).Change?
    ensures var (after, ok) := ExecAll(pol, db, UserDecision(s, d, pw, db).commands);
      (ok <==> !InTheWay(pol, d, db))
      && (ok ==> (UserSettled(d, pw, after) <==> d.present || d.name !in db.nssUsers))
  {
    hide CompareLocal, Relate, Exec, ValidUser, CompareUser, ComparePassword, UserPreChecks, BaseCommands, UserSettled,
      ValidAccountName, ValidHash;
    ChangeMeans(s, pol, d, pw, db);
    ChangeDims(s, d, pw, db);
    var o, dims := Observe(db, d), UserDecision(s, d, pw, db).dims;
    if d.present {
      var base := BaseCommands(d, o, dims);
      BaseReaches(s, pol, d, pw, db);
      ExecAllConcat(pol, db, base, PasswordCommands(d, pw, o, dims));
      if ExecAll(pol, db, base).1 {
        PasswordReaches(s, pol, d, pw, db, ExecAll(pol, db, base).0);
      }
    } else {
      DeletionReaches(s, pol, d, pw, db);
    }
  }

  lemma PasswordReaches(s: Session, pol: Policy, d: UserDesired, pw: Option<string>, db: Db, mid: Db)
    requires Acceptable(d, pw) && d.present && UserDecision(s, d, pw, db).Change?
    requires UserSettled(d, None, mid) && (d.name in db.users ==> mid.shadow == db.shadow)
    ensures var (after, ok) :=
        ExecAll(pol, mid, PasswordCommands(d, pw, Observe(db, d), UserDecision(s, d, pw, db).dims));
      ok && UserSettled(d, pw, after)
  {
    hide CompareLocal, Relate, Exec, UserDecision, ValidHash;
    ChangeDims(s, d, pw, db);
    if d.name in db.users {
      LocalDims(d, Observe(db, d), db.users[d.name]);
    }
    if pw.Some? {
      var c := Chpasswd(["-e"], d.name + ":" + pw.value + "\n");
      PasswordReads(pol, mid, d.name, pw.value);
      OneCommand(pol, mid, c);
      SelfRelates(pw.value);
      if d.name !in db.users {
        AbsentIsNew(s, d, pw, db);
      }
    }
  }

  lemma AbsentIsNew(s: Session, d: UserDesired, pw: Option<string>, db: Db)
    requires UserDecision(s, d, pw, db).Change? && d.name !in db.users
    ensures Observe(db, d).user.Absent?
  {
    hide CompareLocal, Relate, ComparePassword, UserPreChecks, UserCommands;
  }

  lemma DeletionReaches(s: Session, pol: Policy, d: UserDesired, pw: Option<string>, db: Db)
    requires PicksFresh(pol) && Acceptable(d, pw) && !d.present && UserDecision(s, d, pw, db).Change?
    ensures UserDecision(s, d, pw, db).commands == [Userdel([d.name])] && d.name in db.users
    ensures var (after, ok) := ExecAll(pol, db, UserDecision(s, d, pw, db).commands);
      (ok <==> !InTheWay(pol, d, db)) && (ok ==> (UserSettled(d, pw, after) <==> d.name !in db.nssUsers))
  {
    hide CompareLocal, Relate, Exec, ValidAccountName, UserPreChecks;
    ChangeMeans(s, pol, d, pw, db);
    ChangeDims(s, d, pw, db);
    assert State in UserDecision(s, d, pw, db).dims;
    assert UserDecision(s, d, pw, db).commands == [Userdel([d.name])];
    UserdelDeletes(pol, d, db);
    OneCommand(pol, db, Userdel([d.name]));
  }

  /** In the declared state every later run, planned or applied, keeps everything, and the audit complies. */
  lemma SettledKeeps(s: Session, d: UserDesired, pw: Option<string>, db: Db)
    requires pw.Some? ==> d.present && s.root
    ensures UserDecision(s, d, pw, db) == Keep <==> UserSettled(d, pw, db)
    ensures AuditUser(s, d, pw, db) == Compliant <==> UserSettled(d, pw, db)
  {
    hide Drift, UserSettled, UserPreChecks, UserCommands;
    DriftExact(d, pw, db);
  }

  /** A second run after a completed one issues no command, whoever runs it and in either mode. */
  lemma SecondRunKeeps(s: Session, again: Session, pol: Policy, d: UserDesired, pw: Option<string>, db: Db)
    requires PicksFresh(pol) && Acceptable(d, pw) && UserDecision(s, d, pw, db).Change?
    requires !InTheWay(pol, d, db) && (d.present || d.name !in db.nssUsers)
    requires pw.Some? ==> again.root
    ensures var after := ExecAll(pol, db, UserDecision(s, d, pw, db).commands).0;
      UserDecision(again, d, pw, after) == Keep && AuditUser(again, d, pw, after) == Compliant
  {
    hide UserDecision, UserSettled, AuditUser, InTheWay, ValidUser, Acceptable;
    UserReaches(s, pol, d, pw, db);
    ChangeMeans(s, pol, d, pw, db);
    SettledKeeps(again, d, pw, ExecAll(pol, db, UserDecision(s, d, pw, db).commands).0);
  }

  /** When only the password could not be set, running again sets it and nothing else, whatever
      initial shadow field without a password the account was created with. */
  lemma RerunFinishes(s: Session, again: Session, pol: Policy, d: UserDesired, pw: string, db: Db)
    requires PicksFresh(pol) && Acceptable(d, Some(pw)) && UserDecision(s, d, Some(pw), db).Change?
    requires !InTheWay(pol, d, db) && again.root && Classify(pol.initialShadow) == NoPassword
    ensures d.present
    ensures
      var base := BaseCommands(d, Observe(db, d), UserDecision(s, d, Some(pw), db).dims);
      var (mid, ok) := ExecAll(pol, db, base);
      var rest := UserDecision(again, d, Some(pw), mid);
      ok && (rest == Keep || rest == Change([PasswordHash], [Chpasswd(["-e"], d.name + ":" + pw + "\n")]))
  {
    hide ExecAll, CompareUser, BaseCommands, ValidUser, ValidHash, Classify, UserSettled, InTheWay, UserPreChecks, LookupAll;
    ChangeMeans(s, pol, d, Some(pw), db);
    ChangeDims(s, d, Some(pw), db);
    BaseReaches(s, pol, d, Some(pw), db);
    var base := BaseCommands(d, Observe(db, d), UserDecision(s, d, Some(pw), db).dims);
    var mid := ExecAll(pol, db, base).0;
    OnlyPasswordLeft(again, d, pw, mid);
  }

  lemma OnlyPasswordLeft(s: Session, d: UserDesired, pw: string, db: Db)
    requires d.present && s.root && UserSettled(d, None, db)
    requires d.name in db.shadow && Relate(db.shadow[d.name], pw) != DiffersLocked
    ensures var rest := UserDecision(s, d, Some(pw), db);
      rest == Keep || rest == Change([PasswordHash], [Chpasswd(["-e"], d.name + ":" + pw + "\n")])
  {
    hide CompareUser, Relate, LookupAll;
    CompareExact(d, db);
    assert PasswordHash in [PasswordHash];
  }

  // What stays as it was.

  /** Other users with their passwords stay; the user stays if it is to exist, and keeps its uid; its
      groups lose no member; no group is renumbered; and no account of another source is touched. */
  predicate OnlyThisUser(d: UserDesired, db: Db, after: Db) {
    && SameSources(db, after)
    && after.users - {d.name} == db.users - {d.name}
    && after.shadow - {d.name} == db.shadow - {d.name}
    && (d.present && d.name in db.users ==> d.name in after.users)
    && (d.name in db.users && d.name in after.users ==> after.users[d.name].uid == db.users[d.name].uid)
    && (forall g :: g in db.groups && g in after.groups ==>
          && after.groups[g].gid == db.groups[g].gid
          && db.groups[g].members - {d.name} <= after.groups[g].members <= db.groups[g].members + {d.name}
          && (d.present ==> db.groups[g].members <= after.groups[g].members)
          && (d.present && g !in d.groups ==> after.groups[g].members == db.groups[g].members))
    && after.groups.Keys - {d.name} == db.groups.Keys - {d.name}
    && (d.present ==> db.groups.Keys <= after.groups.Keys)
  }

  lemma OnlyThisUserAgain(d: UserDesired, a: Db, b: Db, hash: string)
    requires OnlyThisUser(d, a, b)
    ensures OnlyThisUser(d, a, b.(shadow := b.shadow[d.name := hash]))
  {
  }

  /** Every run, completed or stopped by a failing command, keeps what it does not declare. */
  lemma UserRunKeeps(s: Session, pol: Policy, d: UserDesired, pw: Option<string>, db: Db)
    requires PicksFresh(pol) && Acceptable(d, pw) && UserDecision(s, d, pw, db).Change?
    ensures OnlyThisUser(d, db, ExecAll(pol, db, UserDecision(s, d, pw, db).commands).0)
  {
    hide CompareLocal, Relate, Exec, CompareUser, ComparePassword, UserPreChecks, UserSettled, ValidAccountName,
      ValidHash, UseraddArgs, UsermodArgs, MayCreate, MayModify, OnlyThisUser;
    ChangeMeans(s, pol, d, pw, db);
    var o, dims := Observe(db, d), UserDecision(s, d, pw, db).dims;
    var base, last := BaseCommands(d, o, dims), PasswordCommands(d, pw, o, dims);
    ExecAllConcat(pol, db, base, last);
    BaseKeeps(s, pol, d, pw, db);
    var (mid, ok) := ExecAll(pol, db, base);
    if ok && last != [] {
      BaseReaches(s, pol, d, pw, db);
      HomeSettled(d, mid);
      PasswordReads(pol, mid, d.name, pw.value);
      OneCommand(pol, mid, last[0]);
      OnlyThisUserAgain(d, db, mid, pw.value);
    }
  }

  lemma BaseKeeps(s: Session, pol: Policy, d: UserDesired, pw: Option<string>, db: Db)
    requires PicksFresh(pol) && Acceptable(d, pw) && UserDecision(s, d, pw, db).Change?
    ensures OnlyThisUser(d, db, ExecAll(pol, db, BaseCommands(d, Observe(db, d), UserDecision(s, d, pw, db).dims)).0)
  {
    hide UserDecision, Exec, ValidAccountName, UseraddArgs, UsermodArgs, MayCreate, MayModify, OnlyThisUser,
      Created, Modified, Deleted;
    ChangeMeans(s, pol, d, pw, db);
    var cs := BaseCommands(d, Observe(db, d), UserDecision(s, d, pw, db).dims);
    if cs == [] {
      NothingDone(d, db);
    } else {
      OneCommand(pol, db, cs[0]);
      NothingDone(d, db);
      if d.name !in db.users {
        UseraddCreates(pol, d, db);
        CreatedKeeps(pol, d, db, Exec(pol, db, cs[0]).value);
      } else if d.present {
        UsermodModifies(pol, d, db);
        if Exec(pol, db, cs[0]).Some? {
          ModifiedKeeps(d, db, Exec(pol, db, cs[0]).value);
        }
      } else {
        UserdelDeletes(pol, d, db);
        if Exec(pol, db, cs[0]).Some? {
          DeletedKeeps(d, db, Exec(pol, db, cs[0]).value);
        }
      }
    }
  }

  lemma NothingDone(d: UserDesired, db: Db)
    ensures OnlyThisUser(d, db, db)
  {
  }

  lemma CreatedKeeps(pol: Policy, d: UserDesired, db: Db, after: Db)
    requires d.name !in db.users && Created(pol, d, db, after)
    ensures OnlyThisUser(d, db, after)
  {
  }

  lemma ModifiedKeeps(d: UserDesired, db: Db, after: Db)
    requires d.name in db.users && Modified(d, db, after)
    ensures OnlyThisUser(d, db, after)
  {
  }

  lemma DeletedKeeps(d: UserDesired, db: Db, after: Db)
    requires !d.present && Deleted(d, db, after)
    ensures OnlyThisUser(d, db, after)
  {
  }

  /** A deleted local user that another source also provides: the run deletes it and still does not
      reach the declared absence. */
  lemma DeletionUncovers(s: Session, pol: Policy)
    requires s.uid != 1000 && s.loginUid != Some(1000) && s.loginName != Some("alice") && "alice" !in pol.busy
    ensures
      var d := UserDesired("alice", false, None, None, [], None, None, false, false);
      var alice := UserRec(1000, 1000, "/home/alice", "/bin/sh");
      var db := Db(map["alice" := alice], map[], map[], map["alice" := 5000], map[]);
      var (after, ok) := ExecAll(pol, db, UserDecision(s, d, None, db).commands);
      && UserDecision(s, d, None, db) == Change([State], [Userdel(["alice"])])
      && ok && "alice" !in after.users
      && !UserSettled(d, None, after) && UserDecision(s, d, None, after) == Refuse(NssAccount)
  {
    var d := UserDesired("alice", false, None, None, [], None, None, false, false);
    var alice := UserRec(1000, 1000, "/home/alice", "/bin/sh");
    var db := Db(map["alice" := alice], map[], map[], map["alice" := 5000], map[]);
    assert "alice" != "root" by { assert |"alice"| != |"root"|; }
    assert Drift(d, None, db) == Ok(Compare([State], [], []));
    assert State in [State];
    assert UserDecision(s, d, None, db).commands == [Userdel(["alice"])];
    OneCommand(pol, db, Userdel(["alice"]));
  }

  /** A locked password is never replaced, so no run unlocks an account. */
  lemma LockedStays(s: Session, pol: Policy, d: UserDesired, pw: Option<string>, db: Db)
    requires PicksFresh(pol) && Acceptable(d, pw) && d.present && UserDecision(s, d, pw, db).Change?
    requires d.name in db.users && d.name in db.shadow
    requires Classify(db.shadow[d.name]).Hash? && Classify(db.shadow[d.name]).locked
    ensures ExecAll(pol, db, UserDecision(s, d, pw, db).commands).0.shadow == db.shadow
  {
    hide CompareLocal, Exec, ValidUser, CompareUser, ComparePassword, UserPreChecks, BaseCommands, UserSettled,
      ValidAccountName, ValidHash, Classify, ExecAll;
    ChangeDims(s, d, pw, db);
    LocalDims(d, Observe(db, d), db.users[d.name]);
    var o, dims := Observe(db, d), UserDecision(s, d, pw, db).dims;
    var base := BaseCommands(d, o, dims);
    assert base + [] == base;
    assert PasswordCommands(d, pw, o, dims) == [];
    BaseReaches(s, pol, d, pw, db);
    StoppedBase(s, pol, d, pw, db);
  }

  lemma StoppedBase(s: Session, pol: Policy, d: UserDesired, pw: Option<string>, db: Db)
    requires UserDecision(s, d, pw, db).Change?
    ensures var (mid, ok) := ExecAll(pol, db, BaseCommands(d, Observe(db, d), UserDecision(s, d, pw, db).dims));
      !ok ==> mid == db
  {
    hide UserDecision, Exec, UseraddArgs, UsermodArgs;
    var cs := BaseCommands(d, Observe(db, d), UserDecision(s, d, pw, db).dims);
    if cs != [] {
      OneCommand(pol, db, cs[0]);
    }
  }

  predicate DistinctUids(db: Db) {
    forall m, n :: m in db.users && n in db.users && m != n ==> db.users[m].uid != db.users[n].uid
  }

  /** Distinct uids stay distinct over every run. */
  lemma UidsStayDistinct(s: Session, pol: Policy, d: UserDesired, pw: Option<string>, db: Db)
    requires PicksFresh(pol) && Acceptable(d, pw) && UserDecision(s, d, pw, db).Change? && DistinctUids(db)
    ensures DistinctUids(ExecAll(pol, db, UserDecision(s, d, pw, db).commands).0)
  {
    hide UserDecision, Exec, ValidUser, ExecAll;
    var after := ExecAll(pol, db, UserDecision(s, d, pw, db).commands).0;
    UserRunKeeps(s, pol, d, pw, db);
    if d.name !in db.users {
      NewUid(s, pol, d, pw, db);
    }
    forall n | n in after.users && n != d.name
      ensures n in db.users && after.users[n] == db.users[n]
    {
      assert n in (after.users - {d.name}) && n in (db.users - {d.name});
    }
  }

  /** The uid a created user gets was nobody's. */
  lemma NewUid(s: Session, pol: Policy, d: UserDesired, pw: Option<string>, db: Db)
    requires PicksFresh(pol) && Acceptable(d, pw) && UserDecision(s, d, pw, db).Change? && d.name !in db.users
    ensures var after := ExecAll(pol, db, UserDecision(s, d, pw, db).commands).0;
      d.name in after.users && !UidTaken(db, after.users[d.name].uid)
  {
    hide Exec, ValidAccountName, ValidHash, UseraddArgs, CompareUser, ComparePassword, UserPreChecks, UidTaken, UserSettled;
    ChangeMeans(s, pol, d, pw, db);
    ChangeDims(s, d, pw, db);
    UseraddCreates(pol, d, db);
    var o, dims := Observe(db, d), UserDecision(s, d, pw, db).dims;
    var last := PasswordCommands(d, pw, o, dims);
    assert State in dims;
    var c := Useradd(UseraddArgs(d));
    assert BaseCommands(d, o, dims) == [c];
    OneCommand(pol, db, c);
    ExecAllConcat(pol, db, [c], last);
    if last != [] {
      var mid := Exec(pol, db, c).value;
      PasswordReads(pol, mid, d.name, pw.value);
      OneCommand(pol, mid, last[0]);
    }
  }

  // Plan against apply.

  /** On the same databases a planned change is the change apply makes, command for command; plan
      changes less only for a user whose same-named group an earlier resource certainly creates. */
  lemma PlanIsApply(s: Session, d: UserDesired, pw: Option<string>, db: Db)
    requires s.apply
    ensures
      var plan, apply := UserDecision(s.(apply := false), d, pw, db), UserDecision(s, d, pw, db);
      && (plan.Change? ==> apply == plan)
      && (plan == Keep <==> apply == Keep)
      && (plan.Change? <==> apply.Change? && !(d.name !in db.users && d.group.None? && d.name in s.certain))
      && (plan == Defer ==> apply == Refuse(MissingGroup))
  {
    hide Drift, UserCommands;
    var o := Observe(db, d);
    if d.name in db.users {
      assert o.user.Local?;
    } else if UserDecision(s, d, pw, db).Change? {
      AbsentIsNew(s, d, pw, db);
    } else if UserDecision(s.(apply := false), d, pw, db).Change? {
      AbsentIsNew(s.(apply := false), d, pw, db);
    }
  }

  /** A deferred user is not held up by a missing group once the earlier resources created them. */
  lemma DeferralResolves(s: Session, now: Session, d: UserDesired, pw: Option<string>, db: Db, later: Db)
    requires UserDecision(s, d, pw, db) == Defer
    requires Drift(d, pw, db).Ok?
    requires forall g :: g in Drift(d, pw, db).value.missing ==> g in later.groups
    requires forall g :: g in db.groups ==> g in later.groups
    ensures UserDecision(now, d, pw, later) != Refuse(MissingGroup) && UserDecision(now, d, pw, later) != Defer
  {
    hide CompareLocal, CompareUser, ComparePassword, UserPreChecks, Observe;
    OtherRefusals(now, d, pw, later);
    if Drift(d, pw, later).Ok? && Drift(d, pw, later).value.missing != [] {
      var k := Drift(d, pw, later).value.missing[0];
      MissingIn(d, pw, later, k);
      MissingIn(d, pw, db, k);
      assert false;
    }
  }

  /** A missing group is refused for nothing else. */
  lemma OtherRefusals(s: Session, d: UserDesired, pw: Option<string>, db: Db)
    ensures Drift(d, pw, db).Err? ==> Drift(d, pw, db).error != MissingGroup
    ensures Drift(d, pw, db).Ok? ==> MissingGroup !in Drift(d, pw, db).value.refusals
    ensures UserPreChecks(s, d, Observe(db, d), db) != Some(MissingGroup)
  {
    hide CompareLocal, Relate, MissingGroups, LookupAll, UidTaken;
  }

  /** The missing groups are the declared groups that are not local. */
  lemma MissingIn(d: UserDesired, pw: Option<string>, db: Db, k: string)
    requires Drift(d, pw, db).Ok?
    ensures k in Drift(d, pw, db).value.missing
      <==> d.present && (d.group == Some(k) || k in d.groups) && k !in db.groups
  {
    hide CompareLocal, Relate, MissingMemberships, Nonexistent;
    var o := Observe(db, d);
    if d.present {
      MembershipsExact(db, d.groups, d.name, k);
      if k in d.groups {
        var i :| 0 <= i < |d.groups| && d.groups[i] == k;
        assert o.supplementary[i] == (k, LookupGroup(db, k));
      }
    }
  }

  // Groups.

  /** A changing run of a group succeeds, and reaches the declared state unless a deleted group is
      then still provided by another identity source. */
  lemma GroupReaches(s: Session, pol: Policy, d: GroupDesired, db: Db)
    requires PicksFresh(pol) && ValidGroup(d) && GroupDecision(s, d, db).Change?
    ensures var (after, ok) := ExecAll(pol, db, GroupDecision(s, d, db).commands);
      && ok
      && (GroupSettled(d, after) <==> d.present || d.name !in db.nssGroups)
      && after.users == db.users && after.shadow == db.shadow && SameSources(db, after)
      && after.groups - {d.name} == db.groups - {d.name}
  {
    hide ParseArgs, GroupaddArgs, Decimal, ValidAccountName, ParseId, GidTaken, IdText, IdOption;
    assert GroupDecision(s, d, db).commands == [if d.present then Groupadd(GroupaddArgs(d)) else Groupdel([d.name])];
    var c := GroupDecision(s, d, db).commands[0];
    OneCommand(pol, db, c);
    if d.present {
      GroupaddReads(d);
      IdReads(d.gid, pol.pick(db, d.system));
    } else {
      NotAnOption(d.name);
    }
  }

  lemma NotAnOption(name: string)
    requires ValidAccountName(name)
    ensures name != "" && name[0] != '-'
  {
  }

  /** Kept exactly in the declared state; a second run after a completed one keeps everything. */
  lemma GroupSecondRun(s: Session, again: Session, pol: Policy, d: GroupDesired, db: Db)
    requires PicksFresh(pol) && ValidGroup(d) && GroupDecision(s, d, db).Change?
    ensures GroupDecision(again, d, db) == Keep <==> GroupSettled(d, db)
    ensures AuditGroup(d, db) == Compliant <==> GroupSettled(d, db)
    ensures var after := ExecAll(pol, db, GroupDecision(s, d, db).commands).0;
      d.present || d.name !in db.nssGroups ==>
        GroupDecision(again, d, after) == Keep && AuditGroup(d, after) == Compliant
  {
    GroupReaches(s, pol, d, db);
    GroupKeeps(again, d, db);
    GroupKeeps(again, d, ExecAll(pol, db, GroupDecision(s, d, db).commands).0);
  }

  lemma GroupKeeps(s: Session, d: GroupDesired, db: Db)
    ensures GroupDecision(s, d, db) == Keep <==> GroupSettled(d, db)
    ensures AuditGroup(d, db) == Compliant <==> GroupSettled(d, db)
  {
  }
}
