/** The local account databases and what the shadow-utils commands do to them, read from the
    argument lists the commands are given. */
module AccountTools {
  import opened Wrappers
  import opened Text

  const U32_MAX := 0xFFFF_FFFF

  /** A passwd record; its name is its key. */
  datatype UserRec = UserRec(uid: nat, gid: nat, home: string, shell: string)

  /** A group record; its name is its key. */
  datatype GroupRec = GroupRec(gid: nat, members: set<string>)

  /** The local files, and the accounts another identity source (NSS) provides, by id. */
  datatype Db = Db(
    users: map<string, UserRec>,
    groups: map<string, GroupRec>,
    shadow: map<string, string>,
    nssUsers: map<string, nat>,
    nssGroups: map<string, nat>)

  /** What the distribution decides: `USERGROUPS_ENAB`, the defaults of `useradd`, the id it picks
      for a new (system) account, and the users with running processes. */
  datatype Policy = Policy(
    userGroups: bool,
    busy: set<string>,
    defaultGid: nat,
    defaultHome: string -> string,
    defaultShell: string,
    initialShadow: string,
    pick: (Db, bool) -> nat)

  predicate UidTaken(db: Db, uid: nat) { exists n :: n in db.users && db.users[n].uid == uid }

  predicate GidTaken(db: Db, gid: nat) { exists n :: n in db.groups && db.groups[n].gid == gid }

  predicate IsPrimary(db: Db, gid: nat) { exists n :: n in db.users && db.users[n].gid == gid }

  datatype Command =
    | Groupadd(args: seq<string>)
    | Groupdel(args: seq<string>)
    | Useradd(args: seq<string>)
    | Usermod(args: seq<string>)
    | Userdel(args: seq<string>)
    | Chpasswd(args: seq<string>, input: string)

  datatype Tool = GroupaddTool | UseraddTool | UsermodTool

  /** The one-letter options that take the next argument as their value. */
  predicate TakesValue(tool: Tool, c: char) {
    match tool
    case GroupaddTool => c == 'g'
    case UseraddTool => c in {'u', 'g', 'G', 's', 'd'}
    case UsermodTool => c in {'g', 'G', 's', 'd'}
  }

  predicate IsPlain(tool: Tool, a: string) {
    match tool
    case GroupaddTool => a == "--system"
    case UseraddTool => a == "--system" || a == "-m" || a == "-M"
    case UsermodTool => a == "-a"
  }

  datatype Parsed = Parsed(flags: set<string>, values: map<char, string>, name: Option<string>)
  {
    function Value(c: char): Option<string> { if c in values then Some(values[c]) else None }
  }

  predicate IsShort(a: string) { |a| == 2 && a[0] == '-' }

  /** Read an argument list; nothing for an unknown option or a missing value. */
  function ParseArgs(tool: Tool, args: seq<string>, acc: Parsed): Option<Parsed> {
    if args == [] then Some(acc)
    else
      var a := args[0];
      if IsShort(a) && TakesValue(tool, a[1]) then
        if |args| == 1 then None
        else ParseArgs(tool, args[2..], acc.(values := acc.values[a[1] := args[1]]))
      else if IsPlain(tool, a) then ParseArgs(tool, args[1..], acc.(flags := acc.flags + {a}))
      else if a != "" && a[0] == '-' then None
      else ParseArgs(tool, args[1..], acc.(name := Some(a)))
  }

  function Parse(tool: Tool, args: seq<string>): Option<Parsed> {
    ParseArgs(tool, args, Parsed({}, map[], None))
  }

  /** A decimal id that fits 32 bits. */
  function ParseId(s: string): Option<nat> {
    if s != "" && AllDigits(s) && DigitsValue(s) <= U32_MAX then Some(DigitsValue(s)) else None
  }

  /** The id an option names, or the one picked when it is not given; nothing when it is no id. */
  function IdOption(v: Option<string>, picked: nat): Option<nat> {
    match v case None => Some(picked) case Some(s) => ParseId(s)
  }

  function Names(names: seq<string>): set<string> { set g | g in names }

  function GroupList(v: Option<string>): set<string> {
    match v case None => {} case Some(s) => Names(Split(s, ','))
  }

  function AddMember(groups: map<string, GroupRec>, names: set<string>, user: string): map<string, GroupRec> {
    map g | g in groups :: if g in names then groups[g].(members := groups[g].members + {user}) else groups[g]
  }

  /** `usermod -G` without `-a`: exactly the listed groups keep the user. */
  function SetMember(groups: map<string, GroupRec>, names: set<string>, user: string): map<string, GroupRec> {
    map g | g in groups ::
      groups[g].(members := if g in names then groups[g].members + {user} else groups[g].members - {user})
  }

  function DropMember(groups: map<string, GroupRec>, user: string): map<string, GroupRec> {
    SetMember(groups, {}, user)
  }

  function RunGroupadd(pol: Policy, db: Db, p: Parsed): Option<Db> {
    if p.name.None? || p.name.value in db.groups then None
    else
      match IdOption(p.Value('g'), pol.pick(db, "--system" in p.flags))
      case None => None
      case Some(gid) =>
        if GidTaken(db, gid) then None
        else Some(db.(groups := db.groups[p.name.value := GroupRec(gid, {})]))
  }

  function RunGroupdel(db: Db, name: string): Option<Db> {
    if name !in db.groups || IsPrimary(db, db.groups[name].gid) then None
    else Some(db.(groups := db.groups - {name}))
  }

  /** The primary gid of a new user, and the groups with its private group added when it gets one. */
  function PrimaryGroup(pol: Policy, db: Db, name: string, uid: nat, group: Option<string>, system: bool)
    : Option<(nat, map<string, GroupRec>)>
  {
    match group
    case Some(g) => if g in db.groups then Some((db.groups[g].gid, db.groups)) else None
    case None =>
      if !pol.userGroups then Some((pol.defaultGid, db.groups))
      else if name in db.groups then None
      else
        var gid := if GidTaken(db, uid) then pol.pick(db, false) else uid;
        Some((gid, db.groups[name := GroupRec(gid, {})]))
  }

  function RunUseradd(pol: Policy, db: Db, p: Parsed): Option<Db> {
    if p.name.None? || p.name.value in db.users then None
    else
      var name := p.name.value;
      var system := "--system" in p.flags;
      match IdOption(p.Value('u'), pol.pick(db, system))
      case None => None
      case Some(uid) =>
        if UidTaken(db, uid) || !(GroupList(p.Value('G')) <= db.groups.Keys) then None
        else
          match PrimaryGroup(pol, db, name, uid, p.Value('g'), system)
          case None => None
          case Some((gid, groups)) =>
            var home := if p.Value('d').Some? then p.Value('d').value else pol.defaultHome(name);
            var shell := if p.Value('s').Some? then p.Value('s').value else pol.defaultShell;
            Some(db.(users := db.users[name := UserRec(uid, gid, home, shell)],
                     groups := AddMember(groups, GroupList(p.Value('G')), name),
                     shadow := db.shadow[name := pol.initialShadow]))
  }

  /** The record after `usermod`; the uid is not among its options here. */
  function ModifiedRecord(db: Db, u: UserRec, p: Parsed): UserRec {
    UserRec(
      u.uid,
      if p.Value('g').Some? && p.Value('g').value in db.groups then db.groups[p.Value('g').value].gid else u.gid,
      if p.Value('d').Some? then p.Value('d').value else u.home,
      if p.Value('s').Some? then p.Value('s').value else u.shell)
  }

  function RunUsermod(pol: Policy, db: Db, p: Parsed): Option<Db> {
    if p.name.None? || p.name.value !in db.users then None
    else
      var name := p.name.value;
      if p.Value('d').Some? && name in pol.busy then None
      else if p.Value('g').Some? && p.Value('g').value !in db.groups then None
      else if !(GroupList(p.Value('G')) <= db.groups.Keys) then None
      else
        Some(db.(users := db.users[name := ModifiedRecord(db, db.users[name], p)],
                 groups :=
                   if p.Value('G').None? then db.groups
                   else if "-a" in p.flags then AddMember(db.groups, GroupList(p.Value('G')), name)
                   else SetMember(db.groups, GroupList(p.Value('G')), name)))
  }

  /** Whether `userdel` also removes the same-named group: it was the user's own, and nobody else's. */
  predicate PrivateGroupGoes(pol: Policy, db: Db, name: string)
    requires name in db.users
  {
    && pol.userGroups
    && name in db.groups && db.groups[name].gid == db.users[name].gid
    && !exists n :: n in db.users && n != name && db.users[n].gid == db.users[name].gid
  }

  function RunUserdel(pol: Policy, db: Db, name: string): Option<Db> {
    if name !in db.users || name in pol.busy then None
    else
      var groups := DropMember(db.groups, name);
      Some(db.(users := db.users - {name},
               groups := if PrivateGroupGoes(pol, db, name) then groups - {name} else groups,
               shadow := db.shadow - {name}))
  }

  /** The text before and after the first `c`. */
  function SplitOnce(s: string, c: char): Option<(string, string)> {
    if s == "" then None
    else if s[0] == c then Some(("", s[1..]))
    else match SplitOnce(s[1..], c) case None => None case Some((a, b)) => Some(([s[0]] + a, b))
  }

  lemma {:induction false} SplitOnceAt(a: string, c: char, b: string)
    requires c !in a
    ensures SplitOnce(a + [c] + b, c) == Some((a, b))
  {
    if a == "" {
      assert (a + [c] + b)[1..] == b;
    } else {
      SplitOnceAt(a[1..], c, b);
      assert (a + [c] + b)[1..] == a[1..] + [c] + b;
      assert [a[0]] + a[1..] == a;
    }
  }

  /** `name:hash` lines, each for an existing user; all of them or none. */
  function SetPasswords(db: Db, records: seq<string>): Option<Db>
    decreases |records|
  {
    if records == [] then Some(db)
    else
      match SplitOnce(records[0], ':')
      case None => None
      case Some((name, hash)) =>
        if name !in db.users then None
        else SetPasswords(db.(shadow := db.shadow[name := hash]), records[1..])
  }

  /** The lines of a text; a final line end does not start another line. */
  function Lines(s: string): seq<string> {
    if s == "" then []
    else if s[|s| - 1] == '\n' then Split(s[..|s| - 1], '\n')
    else Split(s, '\n')
  }

  /** The effect of one command; nothing when it fails and so changes nothing. */
  function Exec(pol: Policy, db: Db, c: Command): Option<Db> {
    match c
    case Groupadd(args) =>
      (match Parse(GroupaddTool, args) case None => None case Some(p) => RunGroupadd(pol, db, p))
    case Useradd(args) =>
      (match Parse(UseraddTool, args) case None => None case Some(p) => RunUseradd(pol, db, p))
    case Usermod(args) =>
      (match Parse(UsermodTool, args) case None => None case Some(p) => RunUsermod(pol, db, p))
    case Groupdel(args) =>
      if |args| == 1 && !(args[0] != "" && args[0][0] == '-') then RunGroupdel(db, args[0]) else None
    case Userdel(args) =>
      if |args| == 1 && !(args[0] != "" && args[0][0] == '-') then RunUserdel(pol, db, args[0]) else None
    case Chpasswd(args, input) =>
      if args == ["-e"] then SetPasswords(db, Lines(input)) else None
  }

  /** Commands in order, up to the first that fails: what is reached, and whether none failed. */
  function ExecAll(pol: Policy, db: Db, cs: seq<Command>): (Db, bool)
    decreases |cs|
  {
    if cs == [] then (db, true)
    else
      match Exec(pol, db, cs[0])
      case None => (db, false)
      case Some(after) => ExecAll(pol, after, cs[1..])
  }

  /** The commands that are sent: all of them, or up to and including the first that fails. */
  function Attempted(pol: Policy, db: Db, cs: seq<Command>): seq<Command>
    decreases |cs|
  {
    if cs == [] then []
    else
      match Exec(pol, db, cs[0])
      case None => [cs[0]]
      case Some(after) => [cs[0]] + Attempted(pol, after, cs[1..])
  }
}
