/** What an account run may do at all: which accounts and groups no run deletes, when a change is
    decided, and what the comparison reports. */
module Safeguards {
  import opened Wrappers
  import opened AccountTools
  import opened Accounts
  import opened Convergence

  // Accounts that stay.

  /** Root, the account the run executes as, and the one the session logged in as. */
  predicate Essential(s: Session, name: string, uid: nat) {
    uid in {0, s.uid} || Some(uid) == s.loginUid || Some(name) in {Some("root"), s.loginName}
  }

  /** A local user to be deleted is refused exactly when it is one of these, and otherwise deleted. */
  lemma DeletionExact(s: Session, d: UserDesired, db: Db)
    requires !d.present && d.name in db.users
    ensures UserDecision(s, d, None, db) ==
      if Essential(s, d.name, db.users[d.name].uid) then Refuse(ProtectedUser) else Change([State], [Userdel([d.name])])
  {
    assert Drift(d, None, db) == Ok(Compare([State], [], []));
    assert State in [State];
  }

  /** No run of any user in any session deletes one of these, or gives it another uid. */
  lemma EssentialStay(s: Session, pol: Policy, d: UserDesired, pw: Option<string>, db: Db)
    requires PicksFresh(pol) && Acceptable(d, pw) && UserDecision(s, d, pw, db).Change?
    ensures EssentialKept(s, db, ExecAll(pol, db, UserDecision(s, d, pw, db).commands).0)
  {
    hide UserDecision, ExecAll, Exec, ValidUser;
    var after := ExecAll(pol, db, UserDecision(s, d, pw, db).commands).0;
    UserRunKeeps(s, pol, d, pw, db);
    forall n | n in db.users && n != d.name
      ensures n in after.users && after.users[n] == db.users[n]
    {
      assert n in db.users - {d.name} && n in after.users - {d.name};
    }
    if d.name in db.users {
      ChangeMeans(s, pol, d, pw, db);
      if !d.present { DeletionExact(s, d, db); }
    }
  }

  predicate EssentialKept(s: Session, db: Db, after: Db) {
    forall n :: n in db.users && Essential(s, n, db.users[n].uid) ==>
      n in after.users && after.users[n].uid == db.users[n].uid
  }

  /** The groups no run of a group deletes: root's, the run's own, and every user's primary group. */
  ghost predicate Needed(s: Session, db: Db, name: string)
    requires name in db.groups
  {
    || name == "root" || db.groups[name].gid in {0, s.gid}
    || exists n :: n in db.users && db.users[n].gid == db.groups[name].gid
  }

  /** A local group to be deleted is refused exactly when it is one of these, and otherwise deleted. */
  lemma GroupDeletionExact(s: Session, d: GroupDesired, db: Db)
    requires !d.present && d.name in db.groups
    ensures GroupDecision(s, d, db).Refuse? <==> Needed(s, db, d.name)
    ensures !GroupDecision(s, d, db).Refuse? ==> GroupDecision(s, d, db) == Change([State], [Groupdel([d.name])])
  {
  }

  ghost predicate NeededKept(s: Session, db: Db, after: Db) {
    forall g :: g in db.groups && Needed(s, db, g) ==> g in after.groups && after.groups[g].gid == db.groups[g].gid
  }

  lemma NeededStay(s: Session, pol: Policy, d: GroupDesired, db: Db)
    requires PicksFresh(pol) && ValidGroup(d) && GroupDecision(s, d, db).Change?
    ensures NeededKept(s, db, ExecAll(pol, db, GroupDecision(s, d, db).commands).0)
  {
    hide ExecAll, Exec, ValidGroup, GroupaddArgs, IsPrimary;
    var after := ExecAll(pol, db, GroupDecision(s, d, db).commands).0;
    GroupReaches(s, pol, d, db);
    forall g | g in db.groups && g != d.name
      ensures g in after.groups && after.groups[g] == db.groups[g]
    {
      assert g in db.groups - {d.name} && g in after.groups - {d.name};
    }
    if d.name in db.groups {
      assert !d.present;
      GroupDeletionExact(s, d, db);
    }
  }

  // Passwords.

  function Bangs(k: nat): string { seq(k, i => '!') }

  lemma {:induction false} TrimExact(field: string)
    ensures exists k: nat :: field == Bangs(k) + TrimBangs(field)
    ensures TrimBangs(field) != "" ==> TrimBangs(field)[0] != '!'
  {
    if field != "" && field[0] == '!' {
      TrimExact(field[1..]);
      var k: nat :| field[1..] == Bangs(k) + TrimBangs(field[1..]);
      assert field == ['!'] + field[1..] && Bangs(k + 1) == ['!'] + Bangs(k);
    } else {
      assert field == Bangs(0) + field;
    }
  }

  /** A stored field holds the desired hash exactly when it is that hash behind any number of `!`. */
  lemma SameExact(field: string, hash: string)
    requires ValidHash(hash)
    ensures Relate(field, hash) == Same <==> exists k: nat :: field == Bangs(k) + hash
  {
    TrimExact(field);
    if k: nat :| field == Bangs(k) + hash { Trimmed(k, hash); }
  }

  lemma {:induction false} Trimmed(k: nat, hash: string)
    requires ValidHash(hash)
    ensures TrimBangs(Bangs(k) + hash) == hash
  {
    var field := Bangs(k) + hash;
    if k > 0 {
      assert field[1..] == Bangs(k - 1) + hash;
      Trimmed(k - 1, hash);
    } else {
      assert field == hash;
    }
  }

  /** It is a locked other password exactly when it starts with `!`, and behind those with neither
      nothing nor `*` nor the desired hash. */
  lemma LockedExact(field: string, hash: string)
    requires ValidHash(hash)
    ensures Relate(field, hash) == DiffersLocked <==>
      && field != "" && field[0] == '!'
      && exists k: nat, rest :: field == Bangs(k) + rest && rest != "" && rest[0] !in {'!', '*'} && rest != hash
  {
    TrimExact(field);
    if k: nat, rest :| field == Bangs(k) + rest && rest != "" && rest[0] !in {'!', '*'} && rest != hash {
      BangsEnd(k, rest);
    }
  }

  lemma {:induction false} BangsEnd(k: nat, rest: string)
    requires rest != "" && rest[0] != '!'
    ensures TrimBangs(Bangs(k) + rest) == rest
  {
    var field := Bangs(k) + rest;
    if k > 0 {
      assert field[1..] == Bangs(k - 1) + rest;
      BangsEnd(k - 1, rest);
    } else {
      assert field == rest;
    }
  }

  // What is compared and decided.

  /** The dimensions reported of a local user that is to exist: exactly those in which the databases differ
      from what is declared. */
  lemma DimensionsExact(d: UserDesired, pw: Option<string>, db: Db)
    requires d.present && d.name in db.users && Drift(d, pw, db).Ok?
    ensures var dims, u := Drift(d, pw, db).value.dims, db.users[d.name];
      && (Uid in dims <==> d.uid.Some? && d.uid.value != u.uid)
      && (PrimaryGid in dims <==>
            d.group.Some? && !(d.group.value in db.groups && db.groups[d.group.value].gid == u.gid))
      && (Shell in dims <==> d.shell.Some? && d.shell.value != u.shell)
      && (Home in dims <==> d.home.Some? && d.home.value != u.home)
      && (Groups in dims <==> exists g :: g in d.groups && !(g in db.groups && d.name in db.groups[g].members))
      && (PasswordHash in dims <==>
            pw.Some? && !(d.name in db.shadow && Relate(db.shadow[d.name], pw.value) == Same))
      && State !in dims && Gid !in dims
  {
    hide MissingMemberships, Nonexistent, LookupAll, Relate, Observe, CompareUser, CompareLocal;
    var o, u := Observe(db, d), db.users[d.name];
    DriftDims(d, pw, db);
    LocalDimsExact(d, o, u);
    var last := When(pw.Some? && !(d.name in db.shadow && Relate(db.shadow[d.name], pw.value) == Same), PasswordHash);
    assert forall x :: x in CompareLocal(d, o, u) + last <==> x in CompareLocal(d, o, u) || x in last;
    GroupsDiffer(d, pw, db);
  }

  lemma LocalDimsExact(d: UserDesired, o: UserObservation, u: UserRec)
    ensures forall x :: x in CompareLocal(d, o, u) <==>
      || (x == Uid && d.uid.Some? && d.uid.value != u.uid)
      || (x == PrimaryGid && d.group.Some? && o.primary.Some?
          && !(o.primary.value.Local? && o.primary.value.record.gid == u.gid))
      || (x == Shell && d.shell.Some? && d.shell.value != u.shell)
      || (x == Home && d.home.Some? && d.home.value != u.home)
      || (x == Groups && (MissingMemberships(o.supplementary, d.name) != [] || Nonexistent(o.supplementary) != []))
  {
    hide MissingMemberships, Nonexistent;
  }

  lemma DriftDims(d: UserDesired, pw: Option<string>, db: Db)
    requires d.present && d.name in db.users && Drift(d, pw, db).Ok?
    ensures CompareUser(d, Observe(db, d)).Ok?
    ensures Observe(db, d).primary == if d.group.Some? then Some(LookupGroup(db, d.group.value)) else None
    ensures Drift(d, pw, db).value.dims == CompareLocal(d, Observe(db, d), db.users[d.name])
      + When(pw.Some? && !(d.name in db.shadow && Relate(db.shadow[d.name], pw.value) == Same), PasswordHash)
  {
    hide MissingMemberships, Nonexistent, LookupAll, Relate, CompareLocal;
  }

  lemma GroupsDiffer(d: UserDesired, pw: Option<string>, db: Db)
    requires d.present && CompareUser(d, Observe(db, d)).Ok?
    ensures var o := Observe(db, d);
      (MissingMemberships(o.supplementary, d.name) != [] || Nonexistent(o.supplementary) != [])
      <==> exists g :: g in d.groups && !(g in db.groups && d.name in db.groups[g].members)
  {
    hide MissingMemberships, Nonexistent, LookupAll, CompareLocal;
    NssGroup(db, d);
    GroupsSettled(db, d);
  }

  /** A declared group that is not a local one. */
  predicate Lacks(d: UserDesired, db: Db, g: string) {
    d.present && (d.group == Some(g) || g in d.groups) && g !in db.groups
  }

  /** No local or other account uses the declared uid, and without a declared primary group no group of the
      user's name exists or is going to. */
  ghost predicate Creatable(s: Session, d: UserDesired, db: Db) {
    && (d.uid.Some? ==>
          && (forall n :: n in db.users ==> db.users[n].uid != d.uid.value)
          && (forall n :: n in db.nssUsers ==> db.nssUsers[n] != d.uid.value))
    && (d.group.None? ==>
          && d.name !in db.groups && d.name !in db.nssGroups
          && d.name !in s.direct && (d.name in s.certain ==> s.apply))
  }

  /** When a user is changed: the declared state does not hold, every declared group is local, no id or
      locked password would be replaced, no essential account deleted; and a password needs root. */
  lemma ChangeExact(s: Session, d: UserDesired, pw: Option<string>, db: Db)
    ensures UserDecision(s, d, pw, db).Change? <==>
      && (pw.Some? ==> d.present && s.root)
      && !UserSettled(d, pw, db)
      && (forall g :: !Lacks(d, db, g))
      && (d.name !in db.users ==> d.name !in db.nssUsers && Creatable(s, d, db))
      && (d.name in db.users && d.present && d.uid.Some? ==> d.uid.value == db.users[d.name].uid)
      && (d.name in db.users && d.present && pw.Some? ==>
            d.name in db.shadow && Relate(db.shadow[d.name], pw.value) != DiffersLocked)
      && (d.name in db.users && !d.present ==> !Essential(s, d.name, db.users[d.name].uid))
  {
    hide Drift, UserSettled, UserCommands, Relate, UserPreChecks;
    if pw.Some? ==> d.present {
      DriftExact(d, pw, db);
      ComparesExactly(d, pw, db);
      PreChecksExact(s, d, db);
      if Drift(d, pw, db).Ok? {
        RefusalsExact(d, pw, db);
        NothingLacks(d, pw, db);
      } else if g :| d.present && (d.group == Some(g) || g in d.groups) && g !in db.groups && g in db.nssGroups {
        assert Lacks(d, db, g);
      }
    }
  }

  lemma ComparesExactly(d: UserDesired, pw: Option<string>, db: Db)
    requires pw.Some? ==> d.present
    ensures Drift(d, pw, db).Ok? <==>
      && (d.name in db.users || d.name !in db.nssUsers)
      && (d.present ==> forall g :: d.group == Some(g) || g in d.groups ==> g in db.groups || g !in db.nssGroups)
      && (d.name in db.users && d.present && pw.Some? ==> d.name in db.shadow)
  {
    hide MissingGroups, LookupAll, Relate, CompareLocal;
    if d.present { NssGroup(db, d); }
    if i :| 0 <= i < |d.groups| && LookupGroup(db, d.groups[i]).NssOnly? {
      assert d.groups[i] in d.groups;
    }
  }

  lemma RefusalsExact(d: UserDesired, pw: Option<string>, db: Db)
    requires Drift(d, pw, db).Ok?
    ensures Drift(d, pw, db).value.refusals == [] <==>
      (d.name in db.users && d.present ==>
         && (d.uid.Some? ==> d.uid.value == db.users[d.name].uid)
         && (pw.Some? ==> d.name in db.shadow && Relate(db.shadow[d.name], pw.value) != DiffersLocked))
  {
    hide MissingGroups, LookupAll, Relate, CompareLocal;
  }

  lemma NothingLacks(d: UserDesired, pw: Option<string>, db: Db)
    requires Drift(d, pw, db).Ok?
    ensures Drift(d, pw, db).value.missing == [] <==> forall g :: !Lacks(d, db, g)
  {
    hide Drift;
    var missing := Drift(d, pw, db).value.missing;
    forall g
      ensures g in missing <==> Lacks(d, db, g)
    {
      MissingIn(d, pw, db, g);
    }
    if missing != [] { assert missing[0] in missing; }
  }

  lemma PreChecksExact(s: Session, d: UserDesired, db: Db)
    ensures UserPreChecks(s, d, Observe(db, d), db).None? <==>
      && (d.name !in db.users && d.name !in db.nssUsers ==> Creatable(s, d, db))
      && (d.name in db.users && !d.present ==> !Essential(s, d.name, db.users[d.name].uid))
  {
    hide LookupAll;
  }

  /** When plan puts a user off: groups are missing, and every one of them is still to be created. */
  lemma DeferExact(s: Session, d: UserDesired, pw: Option<string>, db: Db)
    ensures UserDecision(s, d, pw, db) == Defer <==>
      && !s.apply && (pw.Some? ==> d.present && s.root)
      && Drift(d, pw, db).Ok? && Drift(d, pw, db).value.refusals == []
      && (exists g :: Lacks(d, db, g)) && forall g :: Lacks(d, db, g) ==> g in s.direct + s.possible
  {
    hide Drift, UserCommands, UserPreChecks;
    if Drift(d, pw, db).Ok? {
      NothingLacks(d, pw, db);
      forall g
        ensures g in Drift(d, pw, db).value.missing <==> Lacks(d, db, g)
      {
        MissingIn(d, pw, db, g);
      }
    }
  }

  /** A refusal says what is the case: of the reasons a user can be refused for, the one given holds. */
  lemma RefusalTells(s: Session, d: UserDesired, pw: Option<string>, db: Db)
    requires UserDecision(s, d, pw, db).Refuse?
    ensures match UserDecision(s, d, pw, db).why
      case PasswordForAbsent => pw.Some? && !d.present
      case NeedsRoot => pw.Some? && !s.root
      case NssAccount => exists n :: OnlyElsewhere(d, db, n)
      case NoShadowRecord => pw.Some? && d.name in db.users && d.name !in db.shadow
      case Renumber => d.present && d.name in db.users && d.uid.Some? && d.uid.value != db.users[d.name].uid
      case LockedPassword =>
        pw.Some? && d.present && d.name in db.shadow && Relate(db.shadow[d.name], pw.value) == DiffersLocked
      case MissingGroup => exists g :: Lacks(d, db, g)
      case SameNameGroup =>
        && d.name !in db.users && d.group.None?
        && (d.name in db.groups || d.name in db.nssGroups || d.name in s.direct || (d.name in s.certain && !s.apply))
      case IdInUse =>
        d.name !in db.users && d.uid.Some? && (UidTaken(db, d.uid.value) || d.uid.value in db.nssUsers.Values)
      case ProtectedUser => !d.present && d.name in db.users && Essential(s, d.name, db.users[d.name].uid)
      case _ => false
  {
    hide LookupAll, Relate, CompareLocal, MissingGroups, UserCommands, UidTaken;
    if d.present { NssGroup(db, d); }
    if i :| 0 <= i < |d.groups| && LookupGroup(db, d.groups[i]).NssOnly? {
      assert d.present ==> OnlyElsewhere(d, db, d.groups[i]);
    }
    if d.name in db.nssUsers && d.name !in db.users { assert OnlyElsewhere(d, db, d.name); }
    if d.group.Some? && LookupGroup(db, d.group.value).NssOnly? {
      assert d.present ==> OnlyElsewhere(d, db, d.group.value);
    }
    if Drift(d, pw, db).Ok? { NothingLacks(d, pw, db); }
  }

  /** The user, or a declared group, that only another source provides. */
  predicate OnlyElsewhere(d: UserDesired, db: Db, n: string) {
    || (n == d.name && n in db.nssUsers && n !in db.users)
    || (d.present && (d.group == Some(n) || n in d.groups) && n in db.nssGroups && n !in db.groups)
  }

  /** A group that does not exist is created unless its gid is in use anywhere; one that exists is never
      given another gid. */
  lemma GroupPresentExact(s: Session, d: GroupDesired, db: Db)
    requires d.present
    ensures d.name !in db.groups && d.name !in db.nssGroups ==>
      var inUse := d.gid.Some? && (GidTaken(db, d.gid.value) || d.gid.value in db.nssGroups.Values);
      GroupDecision(s, d, db) == if inUse then Refuse(IdInUse) else Change([State], [Groupadd(GroupaddArgs(d))])
    ensures d.name in db.groups ==>
      GroupDecision(s, d, db) == if d.gid.Some? && d.gid.value != db.groups[d.name].gid then Refuse(Renumber) else Keep
    ensures d.name !in db.groups && d.name in db.nssGroups ==> GroupDecision(s, d, db) == Refuse(NssAccount)
  {
    hide GroupaddArgs, GidTaken;
  }

  /** Audit reports the drift that a run would remove, also where the run refuses to; and what it cannot
      compare a run refuses for the same reason. */
  lemma AuditAgrees(s: Session, d: UserDesired, pw: Option<string>, db: Db)
    ensures var run, audit := UserDecision(s, d, pw, db), AuditUser(s, d, pw, db);
      && (audit.AuditError? ==> run == Refuse(audit.why))
      && (audit.Drifted? ==> Drift(d, pw, db).Ok? && audit.dims == Drift(d, pw, db).value.dims && audit.dims != [])
      && (run.Change? ==> audit == Drifted(run.dims))
      && (run == Refuse(Renumber) ==> audit.Drifted? && Uid in audit.dims)
  {
    hide Drift, UserPreChecks, UserCommands;
    DriftErrors(d, pw, db);
    if UserDecision(s, d, pw, db) == Refuse(Renumber) {
      RefusalTells(s, d, pw, db);
      OtherReasons(s, d, db);
      DimensionsExact(d, pw, db);
    }
  }

  /** What cannot be compared is an account of another source, or a missing password record. */
  lemma DriftErrors(d: UserDesired, pw: Option<string>, db: Db)
    ensures Drift(d, pw, db).Err? ==> Drift(d, pw, db).error in {NssAccount, NoShadowRecord}
  {
    hide LookupAll, Relate, MissingGroups, CompareLocal;
  }

  /** Renumbering is refused by the comparison only. */
  lemma OtherReasons(s: Session, d: UserDesired, db: Db)
    ensures UserPreChecks(s, d, Observe(db, d), db) != Some(Renumber)
  {
  }

  lemma GroupAuditAgrees(s: Session, d: GroupDesired, db: Db)
    ensures var run, audit := GroupDecision(s, d, db), AuditGroup(d, db);
      && (audit.AuditError? ==> run == Refuse(audit.why))
      && (run.Change? ==> audit == Drifted(run.dims) && run.dims == [State])
      && (run == Refuse(Renumber) <==> audit == Drifted([Gid]))
  {
    hide GroupaddArgs, GidTaken;
  }
}
