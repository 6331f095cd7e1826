/** The `user` and `group` resources: desired state against observation, and the commands that
    close the gap. */
module Accounts {
  import opened Wrappers
  import opened Text
  import opened AccountTools

  /** Absent everywhere, a local record, or known only to another identity source. */
  datatype Lookup<+T> = Absent | Local(record: T) | NssOnly

  function LookupUser(db: Db, name: string): Lookup<UserRec> {
    if name in db.users then Local(db.users[name]) else if name in db.nssUsers then NssOnly else Absent
  }

  function LookupGroup(db: Db, name: string): Lookup<GroupRec> {
    if name in db.groups then Local(db.groups[name]) else if name in db.nssGroups then NssOnly else Absent
  }

  /** Whether a lookup by id finds anything, here or in another source. */
  predicate UidInUse(db: Db, uid: nat) { UidTaken(db, uid) || uid in db.nssUsers.Values }

  predicate GidInUse(db: Db, gid: nat) { GidTaken(db, gid) || gid in db.nssGroups.Values }

  datatype GroupDesired = GroupDesired(name: string, present: bool, gid: Option<nat>, system: bool)

  datatype UserDesired = UserDesired(
    name: string,
    present: bool,
    uid: Option<nat>,
    group: Option<string>,
    groups: seq<string>,
    shell: Option<string>,
    home: Option<string>,
    createHome: bool,
    system: bool)

  predicate NameChar(c: char) { 'a' <= c <= 'z' || IsDigit(c) || c == '_' || c == '-' }

  predicate ValidAccountName(s: string) {
    && 1 <= |s| <= 32
    && ('a' <= s[0] <= 'z' || s[0] == '_')
    && forall i :: 0 <= i < |s| ==> NameChar(s[i])
  }

  predicate ValidId(id: Option<nat>) { id.Some? ==> 1 <= id.value <= U32_MAX - 1 }

  /** What building the desired state from a recipe guarantees. */
  predicate ValidUser(d: UserDesired) {
    && ValidAccountName(d.name) && ValidId(d.uid)
    && (d.group.Some? ==> ValidAccountName(d.group.value) && d.group.value !in d.groups)
    && (forall g :: g in d.groups ==> ValidAccountName(g))
    && forall i, j :: 0 <= i < j < |d.groups| ==> d.groups[i] != d.groups[j]
  }

  predicate ValidGroup(d: GroupDesired) { ValidAccountName(d.name) && ValidId(d.gid) }

  datatype Dimension = State | Uid | Gid | PrimaryGid | Shell | Home | Groups | PasswordHash

  datatype Why =
    | NssAccount | Renumber | LockedPassword | NeedsRoot | PasswordForAbsent | NoShadowRecord
    | MissingGroup | SameNameGroup | IdInUse | ProtectedUser | RootGroup | RunningGroup | PrimaryOfUser

  /** What differs, what the contract refuses to change, and declared groups that do not exist. */
  datatype Compare = Compare(dims: seq<Dimension>, refusals: seq<Why>, missing: seq<string>)

  datatype UserObservation = UserObservation(
    user: Lookup<UserRec>,
    primary: Option<Lookup<GroupRec>>,
    supplementary: seq<(string, Lookup<GroupRec>)>)

  function LookupAll(db: Db, names: seq<string>): seq<(string, Lookup<GroupRec>)> {
    seq(|names|, i requires 0 <= i < |names| => (names[i], LookupGroup(db, names[i])))
  }

  function Observe(db: Db, d: UserDesired): UserObservation {
    if !d.present then UserObservation(LookupUser(db, d.name), None, [])
    else
      UserObservation(
        LookupUser(db, d.name),
        if d.group.Some? then Some(LookupGroup(db, d.group.value)) else None,
        LookupAll(db, d.groups))
  }

  function When<T>(c: bool, x: T): seq<T> { if c then [x] else [] }

  function Nonexistent(supplementary: seq<(string, Lookup<GroupRec>)>): seq<string> {
    if supplementary == [] then []
    else When(supplementary[0].1.Absent?, supplementary[0].0) + Nonexistent(supplementary[1..])
  }

  /** The existing groups among these that do not list the user. */
  function MissingMemberships(supplementary: seq<(string, Lookup<GroupRec>)>, user: string): seq<string> {
    if supplementary == [] then []
    else
      var (name, l) := supplementary[0];
      When(l.Local? && user !in l.record.members, name) + MissingMemberships(supplementary[1..], user)
  }

  function CompareGroup(d: GroupDesired, o: Lookup<GroupRec>): Result<Compare, Why> {
    match o
    case NssOnly => Err(NssAccount)
    case Absent => Ok(Compare(When(d.present, State), [], []))
    case Local(g) =>
      if !d.present then Ok(Compare([State], [], []))
      else
        var moved := d.gid.Some? && d.gid.value != g.gid;
        Ok(Compare(When(moved, Gid), When(moved, Renumber), []))
  }

  /** How an existing user that should exist differs. */
  function CompareLocal(d: UserDesired, o: UserObservation, u: UserRec): seq<Dimension> {
    When(d.uid.Some? && d.uid.value != u.uid, Uid)
    + When(d.group.Some? && o.primary.Some? && !(o.primary.value.Local? && o.primary.value.record.gid == u.gid), PrimaryGid)
    + When(d.shell.Some? && d.shell.value != u.shell, Shell)
    + When(d.home.Some? && d.home.value != u.home, Home)
    + When(MissingMemberships(o.supplementary, d.name) != [] || Nonexistent(o.supplementary) != [], Groups)
  }

  function MissingGroups(d: UserDesired, o: UserObservation): seq<string> {
    if !d.present then []
    else
      (if d.group.Some? && o.primary == Some(Absent) then [d.group.value] else []) + Nonexistent(o.supplementary)
  }

  function CompareUser(d: UserDesired, o: UserObservation): Result<Compare, Why> {
    if o.user.NssOnly? || o.primary == Some(NssOnly)
       || exists i :: 0 <= i < |o.supplementary| && o.supplementary[i].1.NssOnly?
    then Err(NssAccount)
    else
      match o.user
      case Local(u) =>
        if !d.present then Ok(Compare([State], [], []))
        else
          Ok(Compare(CompareLocal(d, o, u), When(d.uid.Some? && d.uid.value != u.uid, Renumber), MissingGroups(d, o)))
      case _ => Ok(Compare(When(d.present, State), [], MissingGroups(d, o)))
  }

  // The stored password field.

  function TrimBangs(s: string): string { if s != "" && s[0] == '!' then TrimBangs(s[1..]) else s }

  datatype Stored = NoPassword | Hash(locked: bool, value: string)

  function Classify(field: string): Stored {
    var rest := TrimBangs(field);
    if rest == "" || rest[0] == '*' then NoPassword else Hash(field[0] == '!', rest)
  }

  datatype Relation = Same | Differs | DiffersLocked

  function Relate(field: string, desired: string): Relation {
    match Classify(field)
    case NoPassword => Differs
    case Hash(locked, value) => if value == desired then Same else if locked then DiffersLocked else Differs
  }

  /** What an accepted hash certainly is: `$...`, with nothing that ends a record. */
  predicate ValidHash(h: string) { h != "" && h[0] == '$' && ':' !in h && '\n' !in h }

  function ComparePassword(d: UserDesired, o: UserObservation, pw: Option<string>, db: Db, c: Compare)
    : Result<Compare, Why>
  {
    if pw.None? || !o.user.Local? || !d.present then Ok(c)
    else if d.name !in db.shadow then Err(NoShadowRecord)
    else
      match Relate(db.shadow[d.name], pw.value)
      case Same => Ok(c)
      case Differs => Ok(c.(dims := c.dims + [PasswordHash]))
      case DiffersLocked => Ok(c.(dims := c.dims + [PasswordHash], refusals := c.refusals + [LockedPassword]))
  }

  /** The whole comparison of a user with the databases. */
  function Drift(d: UserDesired, pw: Option<string>, db: Db): Result<Compare, Why> {
    var o := Observe(db, d);
    match CompareUser(d, o)
    case Err(e) => Err(e)
    case Ok(c) => ComparePassword(d, o, pw, db, c)
  }

  // Argument lists.

  function Opt(flag: string, v: Option<string>): seq<string> { if v.Some? then [flag, v.value] else [] }

  function IdText(id: Option<nat>): Option<string> { if id.Some? then Some(Decimal(id.value)) else None }

  function ListText(names: seq<string>): Option<string> { if names != [] then Some(Join(names, ",")) else None }

  function GroupaddArgs(d: GroupDesired): seq<string> {
    When(d.system, "--system") + (Opt("-g", IdText(d.gid)) + [d.name])
  }

  function UseraddArgs(d: UserDesired): seq<string> {
    When(d.system, "--system")
    + (Opt("-u", IdText(d.uid))
    + (Opt("-g", d.group)
    + (Opt("-G", ListText(d.groups))
    + (Opt("-s", d.shell)
    + (Opt("-d", d.home)
    + ([if d.createHome then "-m" else "-M"] + [d.name]))))))
  }

  function Changing(want: Option<string>, have: string): Option<string> {
    if want == Some(have) then None else want
  }

  /** The primary group to set: one that exists with another gid than the user's. */
  function NewPrimary(d: UserDesired, o: UserObservation, u: UserRec): Option<string> {
    if o.primary.Some? && o.primary.value.Local? && o.primary.value.record.gid != u.gid then d.group else None
  }

  function UsermodArgs(d: UserDesired, o: UserObservation, u: UserRec): seq<string> {
    var missing := MissingMemberships(o.supplementary, d.name);
    Opt("-g", NewPrimary(d, o, u))
    + (Opt("-s", Changing(d.shell, u.shell))
    + (Opt("-d", Changing(d.home, u.home))
    + (When(missing != [], "-a")
    + (Opt("-G", ListText(missing))
    + [d.name]))))
  }

  // The decision.

  /** Who runs, and what the plan knows about `group` resources that come first: direct
      dependencies, others that certainly run, others that possibly run. */
  datatype Session = Session(
    apply: bool,
    root: bool,
    uid: nat,
    gid: nat,
    loginUid: Option<nat>,
    loginName: Option<string>,
    direct: set<string>,
    certain: set<string>,
    possible: set<string>)

  predicate Protected(s: Session, name: string, u: UserRec) {
    u.uid == 0 || name == "root" || u.uid == s.uid || s.loginUid == Some(u.uid) || s.loginName == Some(name)
  }

  datatype Decision =
    | Keep
    | Refuse(why: Why)
    | Defer
    | Change(dims: seq<Dimension>, commands: seq<Command>)

  /** The command for the account itself; none when only the password differs. */
  function BaseCommands(d: UserDesired, o: UserObservation, dims: seq<Dimension>): seq<Command> {
    if forall x :: x in dims ==> x == PasswordHash then []
    else
      match o.user
      case Local(u) => if d.present then [Usermod(UsermodArgs(d, o, u))] else [Userdel([d.name])]
      case _ => [Useradd(UseraddArgs(d))]
  }

  function PasswordCommands(d: UserDesired, pw: Option<string>, o: UserObservation, dims: seq<Dimension>): seq<Command> {
    if d.present && pw.Some? && (o.user.Absent? || PasswordHash in dims)
    then [Chpasswd(["-e"], d.name + ":" + pw.value + "\n")]
    else []
  }

  /** Account attributes first, then the password. */
  function UserCommands(d: UserDesired, pw: Option<string>, o: UserObservation, dims: seq<Dimension>): seq<Command> {
    BaseCommands(d, o, dims) + PasswordCommands(d, pw, o, dims)
  }

  /** The checks before a changing command, given that something differs. */
  function UserPreChecks(s: Session, d: UserDesired, o: UserObservation, db: Db): Option<Why> {
    if o.user.Absent? && d.group.None?
       && (!LookupGroup(db, d.name).Absent? || d.name in s.direct || (!s.apply && d.name in s.certain))
    then Some(SameNameGroup)
    else if o.user.Absent? && d.uid.Some? && UidInUse(db, d.uid.value) then Some(IdInUse)
    else if o.user.Local? && !d.present && Protected(s, d.name, o.user.record) then Some(ProtectedUser)
    else None
  }

  function UserDecision(s: Session, d: UserDesired, pw: Option<string>, db: Db): Decision {
    if pw.Some? && !d.present then Refuse(PasswordForAbsent)
    else if pw.Some? && !s.root then Refuse(NeedsRoot)
    else
      match Drift(d, pw, db)
      case Err(e) => Refuse(e)
      case Ok(c) =>
        if c.refusals != [] then Refuse(c.refusals[0])
        else if c.missing != [] then
          if !s.apply && forall g :: g in c.missing ==> g in s.direct + s.possible then Defer else Refuse(MissingGroup)
        else if c.dims == [] then Keep
        else
          match UserPreChecks(s, d, Observe(db, d), db)
          case Some(why) => Refuse(why)
          case None => Change(c.dims, UserCommands(d, pw, Observe(db, d), c.dims))
  }

  function GroupPreChecks(s: Session, d: GroupDesired, o: Lookup<GroupRec>, db: Db): Option<Why> {
    match o
    case Absent => if d.gid.Some? && GidInUse(db, d.gid.value) then Some(IdInUse) else None
    case Local(g) =>
      if d.present then None
      else if g.gid == 0 || d.name == "root" then Some(RootGroup)
      else if g.gid == s.gid then Some(RunningGroup)
      else if IsPrimary(db, g.gid) then Some(PrimaryOfUser)
      else None
    case NssOnly => None
  }

  function GroupDecision(s: Session, d: GroupDesired, db: Db): Decision {
    var o := LookupGroup(db, d.name);
    match CompareGroup(d, o)
    case Err(e) => Refuse(e)
    case Ok(c) =>
      if c.dims == [] then Keep
      else if c.refusals != [] then Refuse(c.refusals[0])
      else
        match GroupPreChecks(s, d, o, db)
        case Some(why) => Refuse(why)
        case None => Change(c.dims, [if d.present then Groupadd(GroupaddArgs(d)) else Groupdel([d.name])])
  }

  /** Audit: drift in any dimension, refused or not, is drift. */
  datatype AuditStatus = Compliant | Drifted(dims: seq<Dimension>) | AuditError(why: Why)

  function Status(c: Result<Compare, Why>): AuditStatus {
    match c
    case Err(e) => AuditError(e)
    case Ok(c) => if c.dims == [] then Compliant else Drifted(c.dims)
  }

  function AuditUser(s: Session, d: UserDesired, pw: Option<string>, db: Db): AuditStatus {
    if pw.Some? && !d.present then AuditError(PasswordForAbsent)
    else if pw.Some? && !s.root then AuditError(NeedsRoot)
    else Status(Drift(d, pw, db))
  }

  function AuditGroup(d: GroupDesired, db: Db): AuditStatus {
    Status(CompareGroup(d, LookupGroup(db, d.name)))
  }
}
