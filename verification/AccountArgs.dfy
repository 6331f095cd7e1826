/** The emitted argument lists, read back by the tools: nothing is lost, added or misread. */
module AccountArgs {
  import opened Wrappers
  import opened Text
  import opened AccountTools
  import opened Accounts

  function SetValue(acc: Parsed, c: char, v: Option<string>): Parsed {
    if v.Some? then acc.(values := acc.values[c := v.value]) else acc
  }

  function SetFlag(acc: Parsed, on: bool, a: string): Parsed {
    if on then acc.(flags := acc.flags + {a}) else acc
  }

  lemma ParseOpt(tool: Tool, flag: string, v: Option<string>, rest: seq<string>, acc: Parsed)
    requires IsShort(flag) && TakesValue(tool, flag[1])
    ensures ParseArgs(tool, Opt(flag, v) + rest, acc) == ParseArgs(tool, rest, SetValue(acc, flag[1], v))
  {
    if v.Some? {
      assert (Opt(flag, v) + rest)[2..] == rest;
    } else {
      assert Opt(flag, v) + rest == rest;
    }
  }

  lemma ParseFlag(tool: Tool, on: bool, a: string, rest: seq<string>, acc: Parsed)
    requires IsPlain(tool, a)
    ensures ParseArgs(tool, When(on, a) + rest, acc) == ParseArgs(tool, rest, SetFlag(acc, on, a))
  {
    if on {
      assert (When(on, a) + rest)[1..] == rest;
    } else {
      assert When(on, a) + rest == rest;
    }
  }

  lemma ParseName(tool: Tool, name: string, acc: Parsed)
    requires ValidAccountName(name)
    ensures ParseArgs(tool, [name], acc) == Some(acc.(name := Some(name)))
  {
    assert [name][1..] == [];
  }

  /** `groupadd` reads exactly the declared group. */
  lemma GroupaddReads(d: GroupDesired)
    requires ValidGroup(d)
    ensures var p := Parse(GroupaddTool, GroupaddArgs(d));
      p.Some? && p.value.name == Some(d.name) && p.value.Value('g') == IdText(d.gid)
      && ("--system" in p.value.flags <==> d.system)
  {
    hide ParseArgs, ValidAccountName, Decimal, Opt, When;
    var acc := Parsed({}, map[], None);
    ParseFlag(GroupaddTool, d.system, "--system", Opt("-g", IdText(d.gid)) + [d.name], acc);
    var a1 := SetFlag(acc, d.system, "--system");
    ParseOpt(GroupaddTool, "-g", IdText(d.gid), [d.name], a1);
    ParseName(GroupaddTool, d.name, SetValue(a1, 'g', IdText(d.gid)));
  }

  function CreateHomeFlag(d: UserDesired): string { if d.createHome then "-m" else "-M" }

  function UserParsed(d: UserDesired): Parsed {
    var a0 := SetFlag(Parsed({}, map[], None), d.system, "--system");
    var a1 := SetValue(a0, 'u', IdText(d.uid));
    var a2 := SetValue(a1, 'g', d.group);
    var a3 := SetValue(a2, 'G', ListText(d.groups));
    var a4 := SetValue(a3, 's', d.shell);
    var a5 := SetValue(a4, 'd', d.home);
    SetFlag(a5, true, CreateHomeFlag(d)).(name := Some(d.name))
  }

  lemma UseraddTail(d: UserDesired, acc: Parsed)
    requires ValidAccountName(d.name)
    ensures ParseArgs(UseraddTool, [CreateHomeFlag(d)] + [d.name], acc)
      == Some(SetFlag(acc, true, CreateHomeFlag(d)).(name := Some(d.name)))
  {
    assert When(true, CreateHomeFlag(d)) == [CreateHomeFlag(d)];
    ParseFlag(UseraddTool, true, CreateHomeFlag(d), [d.name], acc);
    ParseName(UseraddTool, d.name, SetFlag(acc, true, CreateHomeFlag(d)));
  }

  lemma UseraddParses(d: UserDesired)
    requires ValidUser(d)
    ensures Parse(UseraddTool, UseraddArgs(d)) == Some(UserParsed(d))
  {
    hide ParseArgs, ValidAccountName, Decimal, Opt, When, Join, SetValue, SetFlag, CreateHomeFlag;
    var m := [if d.createHome then "-m" else "-M"] + [d.name];
    assert m == [CreateHomeFlag(d)] + [d.name] by { HomeFlag(d); }
    var r5 := Opt("-d", d.home) + m;
    var r4 := Opt("-s", d.shell) + r5;
    var r3 := Opt("-G", ListText(d.groups)) + r4;
    var r2 := Opt("-g", d.group) + r3;
    var r1 := Opt("-u", IdText(d.uid)) + r2;
    var acc := Parsed({}, map[], None);
    ParseFlag(UseraddTool, d.system, "--system", r1, acc);
    var a0 := SetFlag(acc, d.system, "--system");
    ParseOpt(UseraddTool, "-u", IdText(d.uid), r2, a0);
    var a1 := SetValue(a0, 'u', IdText(d.uid));
    ParseOpt(UseraddTool, "-g", d.group, r3, a1);
    var a2 := SetValue(a1, 'g', d.group);
    ParseOpt(UseraddTool, "-G", ListText(d.groups), r4, a2);
    var a3 := SetValue(a2, 'G', ListText(d.groups));
    ParseOpt(UseraddTool, "-s", d.shell, r5, a3);
    var a4 := SetValue(a3, 's', d.shell);
    ParseOpt(UseraddTool, "-d", d.home, m, a4);
    UseraddTail(d, SetValue(a4, 'd', d.home));
  }

  lemma HomeFlag(d: UserDesired)
    ensures CreateHomeFlag(d) == if d.createHome then "-m" else "-M"
  {
  }

  /** `useradd` reads exactly the declared user. */
  lemma UseraddReads(d: UserDesired)
    requires ValidUser(d)
    ensures var p := Parse(UseraddTool, UseraddArgs(d));
      p.Some? && p.value.name == Some(d.name)
      && p.value.Value('u') == IdText(d.uid) && p.value.Value('g') == d.group
      && p.value.Value('G') == ListText(d.groups)
      && p.value.Value('s') == d.shell && p.value.Value('d') == d.home
      && ("--system" in p.value.flags <==> d.system)
      && ("-m" in p.value.flags <==> d.createHome) && ("-M" in p.value.flags <==> !d.createHome)
  {
    hide Parse, UseraddArgs, ValidUser, IdText, ListText;
    UseraddParses(d);
    assert "-m"[1] != "-M"[1] && |"--system"| != |"-m"|;
  }

  /** `usermod` reads exactly the differences, and appends to the groups it names. */
  lemma UsermodReads(d: UserDesired, o: UserObservation, u: UserRec)
    requires ValidUser(d)
    ensures var p := Parse(UsermodTool, UsermodArgs(d, o, u));
      var missing := MissingMemberships(o.supplementary, d.name);
      p.Some? && p.value.name == Some(d.name)
      && p.value.Value('g') == NewPrimary(d, o, u)
      && p.value.Value('s') == Changing(d.shell, u.shell) && p.value.Value('d') == Changing(d.home, u.home)
      && p.value.Value('G') == ListText(missing)
      && ("-a" in p.value.flags <==> missing != [])
  {
    hide ParseArgs, ValidAccountName, Opt, When, Join, MissingMemberships, NewPrimary, Changing;
    var missing := MissingMemberships(o.supplementary, d.name);
    var r4 := Opt("-G", ListText(missing)) + [d.name];
    var r3 := When(missing != [], "-a") + r4;
    var r2 := Opt("-d", Changing(d.home, u.home)) + r3;
    var r1 := Opt("-s", Changing(d.shell, u.shell)) + r2;
    var acc := Parsed({}, map[], None);
    ParseOpt(UsermodTool, "-g", NewPrimary(d, o, u), r1, acc);
    var a1 := SetValue(acc, 'g', NewPrimary(d, o, u));
    ParseOpt(UsermodTool, "-s", Changing(d.shell, u.shell), r2, a1);
    var a2 := SetValue(a1, 's', Changing(d.shell, u.shell));
    ParseOpt(UsermodTool, "-d", Changing(d.home, u.home), r3, a2);
    var a3 := SetValue(a2, 'd', Changing(d.home, u.home));
    ParseFlag(UsermodTool, missing != [], "-a", r4, a3);
    var a4 := SetFlag(a3, missing != [], "-a");
    ParseOpt(UsermodTool, "-G", ListText(missing), [d.name], a4);
    ParseName(UsermodTool, d.name, SetValue(a4, 'G', ListText(missing)));
  }

  /** A declared id is read back as itself. */
  lemma IdReads(id: Option<nat>, picked: nat)
    requires ValidId(id)
    ensures IdOption(IdText(id), picked) == Some(if id.Some? then id.value else picked)
  {
    if id.Some? {
      DecimalValue(id.value);
    }
  }

  /** A comma-joined list of account names is read back as those names. */
  lemma GroupsRead(names: seq<string>)
    requires forall g :: g in names ==> ValidAccountName(g)
    ensures GroupList(ListText(names)) == Names(names)
  {
    if names != [] {
      forall g | g in names ensures ',' !in g { }
      assert [','] == ",";
      SplitJoin(names, ',');
    }
  }

  /** One `name:hash` line is one record for that name. */
  lemma PasswordReads(pol: Policy, db: Db, name: string, hash: string)
    requires ValidAccountName(name) && ValidHash(hash) && name in db.users
    ensures Exec(pol, db, Chpasswd(["-e"], name + ":" + hash + "\n"))
      == Some(db.(shadow := db.shadow[name := hash]))
  {
    var line := name + ":" + hash;
    assert ':' !in name && '\n' !in name;
    assert '\n' !in line;
    assert (line + "\n")[..|line|] == line;
    SplitHead(line, '\n', "");
    assert [':'] == ":";
    SplitOnceAt(name, ':', hash);
    assert line + "\n" != "" && Lines(line + "\n") == [line];
    assert SplitOnce(line, ':') == Some((name, hash));
    assert [line][1..] == [];
    assert SetPasswords(db, [line]) == SetPasswords(db.(shadow := db.shadow[name := hash]), []);
  }
}
