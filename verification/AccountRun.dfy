/** Running `user` and `group` resources against a target that the commands change in place. */
module AccountRun {
  import opened Wrappers
  import opened AccountTools
  import opened Accounts
  import opened Convergence
  import opened Safeguards

  /** How an account resource ends. A failed command has possibly changed something; it has for
      certain when the account command went through and the password did not. */
  datatype Outcome =
    | Unchanged
    | Refused(why: Why)
    | Deferred
    | Planned(dims: seq<Dimension>)
    | CommandFailed(changed: bool)
    | ChangedVerified
    | NotReached
    | NotObservable(why: Why)

  /** What the second look makes of the databases after completed commands. */
  ghost function Seen(d: UserDesired, pw: Option<string>, db: Db): Outcome {
    if UserSettled(d, pw, db) then ChangedVerified
    else match Drift(d, pw, db) case Err(e) => NotObservable(e) case Ok(_) => NotReached
  }

  ghost function GroupSeen(d: GroupDesired, db: Db): Outcome {
    if GroupSettled(d, db) then ChangedVerified
    else match CompareGroup(d, LookupGroup(db, d.name)) case Err(e) => NotObservable(e) case Ok(_) => NotReached
  }

  class Target {
    const policy: Policy
    var db: Db
    var issued: seq<Command>

    constructor (policy: Policy, db: Db)
      ensures this.policy == policy && this.db == db && issued == []
    {
      this.policy := policy;
      this.db := db;
      issued := [];
    }

    /** Send one command; a failing command changes nothing. */
    method Send(c: Command) returns (ok: bool)
      modifies this
      ensures issued == old(issued) + [c]
      ensures (db, ok) == ExecAll(policy, old(db), [c])
    {
      OneCommand(policy, db, c);
      issued := issued + [c];
      match Exec(policy, db, c)
      case None => ok := false;
      case Some(after) =>
        db := after;
        ok := true;
    }

    /** Look up the user, and for a present user its groups one by one. */
    method ObserveUser(d: UserDesired) returns (o: UserObservation)
      ensures o == Observe(db, d)
    {
      var user := LookupUser(db, d.name);
      if !d.present {
        return UserObservation(user, None, []);
      }
      var primary := None;
      if d.group.Some? {
        primary := Some(LookupGroup(db, d.group.value));
      }
      var supplementary := [];
      for i := 0 to |d.groups|
        invariant supplementary == LookupAll(db, d.groups[..i])
      {
        supplementary := supplementary + [(d.groups[i], LookupGroup(db, d.groups[i]))];
        assert LookupAll(db, d.groups[..i + 1]) ==
          LookupAll(db, d.groups[..i]) + [(d.groups[i], LookupGroup(db, d.groups[i]))];
      }
      assert d.groups[..|d.groups|] == d.groups;
      return UserObservation(user, primary, supplementary);
    }

    /** The checks in their order, then at most two commands, then the second look. */
    method RunUser(s: Session, d: UserDesired, pw: Option<string>) returns (out: Outcome)
      modifies this
      ensures
        var decision := UserDecision(s, d, pw, old(db));
        if decision.Change? && s.apply then
          var (after, ok) := ExecAll(policy, old(db), decision.commands);
          var attempted := Attempted(policy, old(db), decision.commands);
          && db == after && issued == old(issued) + attempted
          && (!ok ==> out == CommandFailed(|attempted| == 2))
          && (ok ==> out == Seen(d, pw, db))
        else
          && db == old(db) && issued == old(issued)
          && out == match decision {
               case Keep => Unchanged
               case Refuse(why) => Refused(why)
               case Defer => Deferred
               case Change(dims, _) => Planned(dims)
             }
      ensures PicksFresh(policy) && Acceptable(d, pw) && s.apply && UserDecision(s, d, pw, old(db)).Change? ==>
        (out == ChangedVerified <==> !InTheWay(policy, d, old(db)) && (d.present || d.name !in old(db).nssUsers))
        && OnlyThisUser(d, old(db), db)
      ensures PicksFresh(policy) && Acceptable(d, pw) ==> EssentialKept(s, old(db), db)
      ensures !d.present && pw.None? && d.name in old(db).users && Essential(s, d.name, old(db).users[d.name].uid) ==>
        out == Refused(ProtectedUser) && db == old(db)
    {
      hide MissingMemberships, Nonexistent, Exec, OnlyThisUser, InTheWay, UserSettled, Acceptable, CompareLocal,
        EssentialKept;
      if PicksFresh(policy) && Acceptable(d, pw) { EssentialAlways(s, policy, d, pw, db); }
      if !d.present && pw.None? && d.name in db.users { DeletionExact(s, d, db); }
      if pw.Some? && !d.present {
        return Refused(PasswordForAbsent);
      }
      if pw.Some? && !s.root {
        return Refused(NeedsRoot);
      }
      var o := ObserveUser(d);
      var compared := CompareUser(d, o);
      if compared.Err? {
        return Refused(compared.error);
      }
      compared := ComparePassword(d, o, pw, db, compared.value);
      if compared.Err? {
        return Refused(compared.error);
      }
      var c := compared.value;
      if c.refusals != [] {
        return Refused(c.refusals[0]);
      }
      if c.missing != [] {
        if !s.apply && forall g :: g in c.missing ==> g in s.direct + s.possible {
          return Deferred;
        }
        return Refused(MissingGroup);
      }
      if c.dims == [] {
        return Unchanged;
      }
      var created := o.user.Absent?;
      if created && d.group.None? {
        var sameName := d.name in s.direct || (!s.apply && d.name in s.certain);
        if LookupGroup(db, d.name) != Lookup.Absent || sameName {
          return Refused(SameNameGroup);
        }
      }
      if created && d.uid.Some? && UidInUse(db, d.uid.value) {
        return Refused(IdInUse);
      }
      if o.user.Local? && !d.present && Protected(s, d.name, o.user.record) {
        return Refused(ProtectedUser);
      }
      if !s.apply {
        return Planned(c.dims);
      }
      out := Execute(s, d, pw, o, c.dims);
    }

    /** The commands of a decided change and what the second look finds. */
    method Execute(s: Session, d: UserDesired, pw: Option<string>, o: UserObservation, dims: seq<Dimension>)
      returns (out: Outcome)
      requires s.apply && UserDecision(s, d, pw, db).Change?
      requires o == Observe(db, d) && dims == UserDecision(s, d, pw, db).dims
      modifies this
      ensures
        var commands := UserDecision(s, d, pw, old(db)).commands;
        var (after, ok) := ExecAll(policy, old(db), commands);
        var attempted := Attempted(policy, old(db), commands);
        && db == after && issued == old(issued) + attempted
        && (!ok ==> out == CommandFailed(|attempted| == 2))
        && (ok ==> out == Seen(d, pw, db))
      ensures PicksFresh(policy) && Acceptable(d, pw) ==>
        (out == ChangedVerified <==> !InTheWay(policy, d, old(db)) && (d.present || d.name !in old(db).nssUsers))
        && OnlyThisUser(d, old(db), db)
    {
      hide UserDecision, Observe, BaseCommands, PasswordCommands, ExecAll, Attempted, OnlyThisUser, InTheWay, UserSettled,
        Acceptable, Drift;
      var base, last := BaseCommands(d, o, dims), PasswordCommands(d, pw, o, dims);
      AtMostTwo(s, d, pw, db);
      if PicksFresh(policy) && Acceptable(d, pw) {
        UserReaches(s, policy, d, pw, db);
        UserRunKeeps(s, policy, d, pw, db);
      }
      var failed := SendBoth(base, last);
      if failed.Some? {
        return CommandFailed(failed.value);
      }
      out := Confirm(d, pw);
    }

    /** The account command, then the password: the failure says whether the first went through. */
    method SendBoth(base: seq<Command>, last: seq<Command>) returns (failed: Option<bool>)
      requires |base| <= 1 && |last| <= 1
      modifies this
      ensures (db, failed.None?) == ExecAll(policy, old(db), base + last)
      ensures issued == old(issued) + Attempted(policy, old(db), base + last)
      ensures failed.Some? ==> failed.value == (|Attempted(policy, old(db), base + last)| == 2)
    {
      hide Exec;
      ExecAllConcat(policy, db, base, last);
      AttemptedConcat(policy, db, base, last);
      if base != [] {
        assert base == [base[0]];
        OneCommand(policy, db, base[0]);
        var ok := Send(base[0]);
        if !ok {
          return Some(false);
        }
      }
      if last != [] {
        assert last == [last[0]];
        OneCommand(policy, db, last[0]);
        var ok := Send(last[0]);
        if !ok {
          return Some(base != []);
        }
      }
      failed := None;
    }

    /** The second look: verified exactly in the declared state. */
    method Confirm(d: UserDesired, pw: Option<string>) returns (out: Outcome)
      requires pw.Some? ==> d.present
      ensures out == Seen(d, pw, db)
    {
      hide CompareUser, ComparePassword, Observe, UserSettled;
      var again := ObserveUser(d);
      DriftExact(d, pw, db);
      var compared := CompareUser(d, again);
      if compared.Ok? {
        compared := ComparePassword(d, again, pw, db, compared.value);
      }
      match compared
      case Err(e) => return NotObservable(e);
      case Ok(c) => return if c == Compare([], [], []) then ChangedVerified else NotReached;
    }

    /** The same for a group: one look, one command, a second look. */
    method RunGroup(s: Session, d: GroupDesired) returns (out: Outcome)
      modifies this
      ensures
        var decision := GroupDecision(s, d, old(db));
        if decision.Change? && s.apply then
          && issued == old(issued) + decision.commands
          && (db, !out.CommandFailed?) == ExecAll(policy, old(db), decision.commands)
          && (out.CommandFailed? ==> out == CommandFailed(false))
          && (!out.CommandFailed? ==> out == GroupSeen(d, db))
          && (PicksFresh(policy) && ValidGroup(d) ==>
                && (out == ChangedVerified <==> d.present || d.name !in old(db).nssGroups)
                && (out == ChangedVerified <==> GroupSettled(d, db))
                && db.users == old(db).users && db.groups - {d.name} == old(db).groups - {d.name}
                && NeededKept(s, old(db), db))
        else
          && db == old(db) && issued == old(issued)
          && out == match decision {
               case Keep => Unchanged
               case Refuse(why) => Refused(why)
               case Defer => Deferred
               case Change(dims, _) => Planned(dims)
             }
    {
      hide Exec, IsPrimary, GidInUse, GroupaddArgs, NeededKept;
      var o := LookupGroup(db, d.name);
      var compared := CompareGroup(d, o);
      if compared.Err? {
        return Refused(compared.error);
      }
      var c := compared.value;
      if c.dims == [] {
        return Unchanged;
      }
      if c.refusals != [] {
        return Refused(c.refusals[0]);
      }
      match o {
        case Absent =>
          if d.gid.Some? && GidInUse(db, d.gid.value) {
            return Refused(IdInUse);
          }
        case Local(g) =>
          if g.gid == 0 || d.name == "root" {
            return Refused(RootGroup);
          }
          if g.gid == s.gid {
            return Refused(RunningGroup);
          }
          if IsPrimary(db, g.gid) {
            return Refused(PrimaryOfUser);
          }
        case NssOnly =>
      }
      if !s.apply {
        return Planned(c.dims);
      }
      var command := if d.present then Groupadd(GroupaddArgs(d)) else Groupdel([d.name]);
      assert GroupDecision(s, d, db).commands == [command];
      if PicksFresh(policy) && ValidGroup(d) {
        GroupReaches(s, policy, d, db);
        NeededStay(s, policy, d, db);
      }
      var ok := Send(command);
      if !ok {
        return CommandFailed(false);
      }
      GroupKeeps(s, d, db);
      var after := CompareGroup(d, LookupGroup(db, d.name));
      match after
      case Err(e) => return NotObservable(e);
      case Ok(c) => return if c == Compare([], [], []) then ChangedVerified else NotReached;
    }
  }

  /** Nothing or everything done, the essential accounts are kept. */
  lemma EssentialAlways(s: Session, pol: Policy, d: UserDesired, pw: Option<string>, db: Db)
    requires PicksFresh(pol) && Acceptable(d, pw)
    ensures EssentialKept(s, db, db)
    ensures UserDecision(s, d, pw, db).Change? ==>
      EssentialKept(s, db, ExecAll(pol, db, UserDecision(s, d, pw, db).commands).0)
  {
    hide UserDecision, ExecAll;
    if UserDecision(s, d, pw, db).Change? { EssentialStay(s, pol, d, pw, db); }
  }

  lemma AtMostTwo(s: Session, d: UserDesired, pw: Option<string>, db: Db)
    requires UserDecision(s, d, pw, db).Change?
    ensures var dims := UserDecision(s, d, pw, db).dims;
      var base, last := BaseCommands(d, Observe(db, d), dims), PasswordCommands(d, pw, Observe(db, d), dims);
      && UserDecision(s, d, pw, db).commands == base + last
      && |base| <= 1 && |last| <= 1 && base + last != []
      && (pw.Some? ==> d.present)
  {
    hide CompareLocal, CompareUser, ComparePassword, UserPreChecks, Observe, Relate, UsermodArgs, UseraddArgs;
    ChangeDims(s, d, pw, db);
    var dims := UserDecision(s, d, pw, db).dims;
    if d.name in db.users && d.present {
      LocalDims(d, Observe(db, d), db.users[d.name]);
    }
    assert dims != [] && dims[0] in dims;
  }
}
