/** Slash-command dispatch of src/DiscordSlashCommandHandler.cs: the table
    built from the commands Discord echoes back after registration, the
    name an interaction is looked up by, and the lookup itself. Registering
    over HTTP, the reflection-built local commands and running the command
    method are not modelled; a command is identified by its name and its
    subcommands. */
module SlashCommands {
  import opened Wrappers
  import Dictionary
  import Utf16

  /** The size of the stack buffer the full command name is written into,
      in UTF-16 code units (`stackalloc char[74]`). */
  const NAME_BUFFER: nat := 74

  /** ApplicationCommandOptionType. */
  datatype OptionType =
    | SubCommand | SubCommandGroup | StringOption | Integer | Boolean | User
    | Channel | Role | Mentionable | Number | Attachment

  predicate IsSubcommandKind(t: OptionType) {
    t == SubCommand || t == SubCommandGroup
  }

  /** An option of an interaction's command data, with its nested options. */
  datatype DataOption = DataOption(kind: OptionType, name: string, options: DataOptions)

  /** An `Optional<IReadOnlyList<...>>` of interaction options: Missing is
      the undefined case. */
  datatype DataOptions = Missing | Present(items: seq<DataOption>)

  /** The application-command data of an interaction. */
  datatype CommandData = CommandData(name: string, options: DataOptions)

  /** An option of a command as Discord returns it after registration. */
  datatype CommandOption = CommandOption(kind: OptionType, name: string)

  /** A command as Discord returns it after registration. */
  datatype ApplicationCommand = ApplicationCommand(name: string, options: Optional<seq<CommandOption>>)

  /** A local command: its English name and its subcommands. */
  datatype Command = Command(name: string, subcommands: seq<Command>)

  /** Exceptions GetCommandName throws: writing past the 74-unit buffer
      (the CopyTo of a too long command name, the index of the space, the
      slice of an option name), and reading `.Value` of undefined nested
      options. */
  datatype NameError = BufferOverflow | OptionsUndefined

  datatype ExecuteError =
    | NotFound                        // ProviderException(ResponseStatus.NotFound)
    | NameFailed(error: NameError)

  // ---------------------------------------------------------------------
  // The name an interaction is dispatched by
  // ---------------------------------------------------------------------

  /** The number of options in a tree of options, for termination. */
  function OptionSize(o: DataOption): nat
    decreases o
  {
    1 + match o.options
        case Missing => 0
        case Present(children) => OptionsSize(children)
  }

  function OptionsSize(options: seq<DataOption>): nat
    decreases options
  {
    if options == [] then 0 else OptionSize(options[0]) + OptionsSize(options[1..])
  }

  /** Both ways the option walk descends make the tree smaller. */
  lemma OptionsSizeShrinks(options: seq<DataOption>)
    requires options != []
    ensures OptionsSize(options[1..]) < OptionsSize(options)
    ensures options[0].options.Present? ==> OptionsSize(options[0].options.items) < OptionsSize(options)
  {
  }

  /** `acc` followed by " " and each name of `path` in turn. */
  function JoinPath(acc: string, path: seq<string>): (r: string)
    ensures |r| >= |acc| + |path| && r[..|acc|] == acc
    ensures path != [] ==> r == JoinPath(acc + " " + path[0], path[1..])
    decreases |path|
  {
    if path == [] then acc
    else
      var r := JoinPath(acc + " " + path[0], path[1..]);
      assert r[..|acc|] == (acc + " " + path[0])[..|acc|];
      r
  }

  /** The names of the nested subcommands an interaction selects: in each
      option list the first option of a subcommand kind, then its own
      options, ignoring the rest of the list. Fails where a selected option's
      nested options are undefined. */
  function SubcommandPath(options: seq<DataOption>): (r: Result<seq<string>, NameError>)
    ensures r.Failure? ==> r.error == OptionsUndefined
    ensures r.Success? && r.value != [] ==>
              exists i :: 0 <= i < |options| && IsSubcommandKind(options[i].kind) && options[i].name == r.value[0]
    ensures (forall i :: 0 <= i < |options| ==> !IsSubcommandKind(options[i].kind)) ==> r == Success([])
    decreases OptionsSize(options)
  {
    if options == [] then Success([])
    else
    OptionsSizeShrinks(options);
    if !IsSubcommandKind(options[0].kind) then SubcommandPath(options[1..])
    else match options[0].options
      case Missing => Failure(OptionsUndefined)
      case Present(children) =>
        var rest :- SubcommandPath(children);
        Success([options[0].name] + rest)
  }

  /** `options[i]` is the first option of a subcommand kind. */
  predicate FirstSubcommandAt(options: seq<DataOption>, i: nat) {
    && i < |options| && IsSubcommandKind(options[i].kind)
    && forall m :: 0 <= m < i ==> !IsSubcommandKind(options[m].kind)
  }

  /** The path starts at the first subcommand-kind option, ignores every
      later option, and goes on with the path through that option's own
      options; it fails when those are undefined. */
  lemma {:induction false} SubcommandPathFollowsFirst(options: seq<DataOption>, i: nat)
    requires FirstSubcommandAt(options, i)
    ensures options[i].options.Missing? ==> SubcommandPath(options) == Failure(OptionsUndefined)
    ensures options[i].options.Present? ==>
              (SubcommandPath(options).Success? <==> SubcommandPath(options[i].options.items).Success?)
    ensures options[i].options.Present? && SubcommandPath(options).Success? ==>
              SubcommandPath(options).value == [options[i].name] + SubcommandPath(options[i].options.items).value
    decreases i
  {
    if i > 0 {
      var tail := options[1..];
      assert SubcommandPath(options) == SubcommandPath(tail);
      assert tail[i - 1] == options[i];
      assert FirstSubcommandAt(tail, i - 1) by {
        forall m | 0 <= m < i - 1 ensures !IsSubcommandKind(tail[m].kind) {
          assert tail[m] == options[m + 1];
        }
      }
      SubcommandPathFollowsFirst(tail, i - 1);
    }
  }

  /** The loop of GetCommandName after the command name was copied: `acc`
      is the buffer's content so far, `Utf16.Length(acc)` its `position`. The
      space at `position` and the option name after it fit exactly when they
      end within the buffer. */
  function WriteOptions(acc: string, options: seq<DataOption>): (r: Result<string, NameError>)
    decreases OptionsSize(options)
  {
    if options == [] then Success(acc)
    else
    OptionsSizeShrinks(options);
    if !IsSubcommandKind(options[0].kind) then WriteOptions(acc, options[1..])
    else if Utf16.Length(acc) + 1 + Utf16.Length(options[0].name) > NAME_BUFFER then Failure(BufferOverflow)
    else match options[0].options
      case Missing => Failure(OptionsUndefined)
      case Present(children) => WriteOptions(acc + " " + options[0].name, children)
  }

  /** GetCommandName. Lengths are .NET string lengths: UTF-16 code units. */
  function GetCommandName(data: CommandData): (r: Result<string, NameError>)
    ensures Utf16.Length(data.name) > NAME_BUFFER ==> r == Failure(BufferOverflow)
    ensures r.Success? ==> && Utf16.Length(data.name) <= Utf16.Length(r.value) <= NAME_BUFFER
                           && |data.name| <= |r.value| && r.value[..|data.name|] == data.name
  {
    if Utf16.Length(data.name) > NAME_BUFFER then Failure(BufferOverflow)
    else match data.options
      case Missing => Success(data.name)
      case Present(options) =>
        WriteOptionsIsJoinedPath(data.name, options);
        var r := WriteOptions(data.name, options);
        if r.Success? then PrefixLength(r.value, data.name); r else r
  }

  /** The option path of an interaction: none when it has no options. */
  function PathOf(data: CommandData): Result<seq<string>, NameError> {
    match data.options
    case Missing => Success([])
    case Present(options) => SubcommandPath(options)
  }

  /** The buffer loop writes exactly the command name joined with the
      subcommand path, and fails exactly when the path is undefined or the
      joined name does not fit the buffer's 74 code units. */
  lemma {:induction false} WriteOptionsIsJoinedPath(acc: string, options: seq<DataOption>)
    requires Utf16.Length(acc) <= NAME_BUFFER
    ensures WriteOptions(acc, options).Success? <==>
              SubcommandPath(options).Success? && Utf16.Length(JoinPath(acc, SubcommandPath(options).value)) <= NAME_BUFFER
    ensures WriteOptions(acc, options).Success? ==>
              WriteOptions(acc, options).value == JoinPath(acc, SubcommandPath(options).value)
    decreases OptionsSize(options)
  {
    if options != [] {
      OptionsSizeShrinks(options);
    }
    if options == [] {
    } else if !IsSubcommandKind(options[0].kind) {
      WriteOptionsIsJoinedPath(acc, options[1..]);
    } else if Utf16.Length(acc) + 1 + Utf16.Length(options[0].name) > NAME_BUFFER {
      match SubcommandPath(options) {
        case Failure(_) =>
        case Success(path) =>
          assert path[0] == options[0].name;
          SpaceJoinLength(acc, path[0]);
          PrefixLength(JoinPath(acc, path), acc + " " + path[0]);
      }
    } else {
      match options[0].options {
        case Missing =>
        case Present(children) =>
          SpaceJoinLength(acc, options[0].name);
          WriteOptionsIsJoinedPath(acc + " " + options[0].name, children);
          match SubcommandPath(children) {
            case Failure(_) =>
            case Success(rest) =>
              var path := [options[0].name] + rest;
              assert path[1..] == rest;
          }
      }
    }
  }

  /** GetCommandName is the command name joined with the selected
      subcommand path whenever that fits 74 code units, and fails otherwise. */
  lemma GetCommandNameIsJoinedPath(data: CommandData)
    ensures GetCommandName(data).Success? <==>
              && Utf16.Length(data.name) <= NAME_BUFFER && PathOf(data).Success?
              && Utf16.Length(JoinPath(data.name, PathOf(data).value)) <= NAME_BUFFER
    ensures GetCommandName(data).Success? ==> GetCommandName(data).value == JoinPath(data.name, PathOf(data).value)
  {
    if Utf16.Length(data.name) <= NAME_BUFFER && data.options.Present? {
      WriteOptionsIsJoinedPath(data.name, data.options.items);
    }
  }

  /** Joining one name adds its length and one unit for the space. */
  lemma SpaceJoinLength(acc: string, name: string)
    ensures Utf16.Length(acc + " " + name) == Utf16.Length(acc) + 1 + Utf16.Length(name)
  {
    Utf16.UnitsAppend(acc, " ");
    Utf16.UnitsAppend(acc + " ", name);
  }

  /** A string is at least as long as any prefix of it. */
  lemma PrefixLength(r: string, p: string)
    requires |p| <= |r| && r[..|p|] == p
    ensures Utf16.Length(r) >= Utf16.Length(p)
  {
    assert r == p + r[|p|..];
    Utf16.UnitsAppend(p, r[|p|..]);
  }

  // ---------------------------------------------------------------------
  // The command table
  // ---------------------------------------------------------------------

  /** Every option is a subcommand or a subcommand group: then the command
      is registered per subcommand instead of by its own name. */
  predicate HasSubcommandForm(a: ApplicationCommand) {
    a.options.Defined? && forall i :: 0 <= i < |a.options.value| ==> IsSubcommandKind(a.options.value[i].kind)
  }

  /** One entry per local subcommand named like the option, in the order of
      the subcommands. */
  function SubcommandEntries(commandName: string, optionName: string, subcommands: seq<Command>): (es: seq<(string, Command)>)
    ensures forall e :: e in es <==>
              exists s :: s in subcommands && s.name == optionName && e == (commandName + " " + optionName, s)
    decreases |subcommands|
  {
    if subcommands == [] then []
    else
      var s := subcommands[0];
      var rest := SubcommandEntries(commandName, optionName, subcommands[1..]);
      assert forall x :: x in subcommands <==> x == s || x in subcommands[1..];
      (if s.name == optionName then [(commandName + " " + s.name, s)] else []) + rest
  }

  /** The entries for one option list, options in order. */
  function OptionEntries(commandName: string, options: seq<CommandOption>, subcommands: seq<Command>): (es: seq<(string, Command)>)
    ensures forall e :: e in es <==>
              exists o, s :: o in options && s in subcommands && s.name == o.name && e == (commandName + " " + o.name, s)
    decreases |options|
  {
    if options == [] then []
    else
      var rest := OptionEntries(commandName, options[1..], subcommands);
      assert forall x :: x in options <==> x == options[0] || x in options[1..];
      SubcommandEntries(commandName, options[0].name, subcommands) + rest
  }

  /** The entries one received command contributes for one local command. */
  function CommandEntries(a: ApplicationCommand, local: Command): (es: seq<(string, Command)>)
    ensures a.name != local.name ==> es == []
    ensures a.name == local.name && !HasSubcommandForm(a) ==> es == [(a.name, local)]
    ensures a.name == local.name && HasSubcommandForm(a) ==> forall e :: e in es <==>
              exists o, s :: o in a.options.value && s in local.subcommands && s.name == o.name && e == (a.name + " " + o.name, s)
  {
    if a.name != local.name then []
    else if HasSubcommandForm(a) then OptionEntries(a.name, a.options.value, local.subcommands)
    else [(a.name, local)]
  }

  /** The entries one received command contributes, local commands in order. */
  function LocalEntries(a: ApplicationCommand, locals: seq<Command>): (es: seq<(string, Command)>)
    ensures forall e :: e in es <==> exists l :: l in locals && e in CommandEntries(a, l)
    decreases |locals|
  {
    if locals == [] then []
    else
      var rest := LocalEntries(a, locals[1..]);
      assert forall x :: x in locals <==> x == locals[0] || x in locals[1..];
      CommandEntries(a, locals[0]) + rest
  }

  /** Every Dictionary.Add RegisterCommands performs, in order. */
  function Registrations(received: seq<ApplicationCommand>, locals: seq<Command>): seq<(string, Command)>
    decreases |received|
  {
    if received == [] then [] else LocalEntries(received[0], locals) + Registrations(received[1..], locals)
  }

  lemma {:induction false} RegistrationsMembers(received: seq<ApplicationCommand>, locals: seq<Command>, e: (string, Command))
    ensures e in Registrations(received, locals) <==> exists a :: a in received && e in LocalEntries(a, locals)
    decreases |received|
  {
    if received != [] {
      var head := LocalEntries(received[0], locals);
      var rest := received[1..];
      RegistrationsMembers(rest, locals, e);
      if e in head {
        assert received[0] in received;
      } else if e in Registrations(rest, locals) {
        var a :| a in rest && e in LocalEntries(a, locals);
        assert a in received;
      }
      if a :| a in received && e in LocalEntries(a, locals) {
        if a != received[0] {
          assert a in rest;
        }
      }
    }
  }

  /** A table entry as the two branches of RegisterCommands describe it:
      a received command matched by name to a local one is registered by its
      name, or, when all its options are subcommands, each option matched by
      name to a local subcommand is registered as "command subcommand". */
  predicate Registers(received: seq<ApplicationCommand>, locals: seq<Command>, key: string, command: Command) {
    exists a, l :: a in received && l in locals && a.name == l.name &&
      if HasSubcommandForm(a) then
        exists o :: o in a.options.value && command in l.subcommands && command.name == o.name && key == a.name + " " + o.name
      else key == a.name && command == l
  }

  lemma RegistrationsAreRegisters(received: seq<ApplicationCommand>, locals: seq<Command>, key: string, command: Command)
    ensures (key, command) in Registrations(received, locals) <==> Registers(received, locals, key, command)
  {
    if (key, command) in Registrations(received, locals) {
      RegistrationRegisters(received, locals, key, command);
    }
    if Registers(received, locals, key, command) {
      RegistersIsRegistration(received, locals, key, command);
    }
  }

  lemma RegistrationRegisters(received: seq<ApplicationCommand>, locals: seq<Command>, key: string, command: Command)
    requires (key, command) in Registrations(received, locals)
    ensures Registers(received, locals, key, command)
  {
    var e := (key, command);
    RegistrationsMembers(received, locals, e);
    var a :| a in received && e in LocalEntries(a, locals);
    var l :| l in locals && e in CommandEntries(a, l);
    assert a.name == l.name;
    if HasSubcommandForm(a) {
      var o, s :| o in a.options.value && s in l.subcommands && s.name == o.name && e == (a.name + " " + o.name, s);
      assert o in a.options.value && command in l.subcommands && command.name == o.name && key == a.name + " " + o.name;
    } else {
      assert key == a.name && command == l;
    }
  }

  lemma RegistersIsRegistration(received: seq<ApplicationCommand>, locals: seq<Command>, key: string, command: Command)
    requires Registers(received, locals, key, command)
    ensures (key, command) in Registrations(received, locals)
  {
    var e := (key, command);
    var a, l :| a in received && l in locals && a.name == l.name &&
      if HasSubcommandForm(a) then
        exists o :: o in a.options.value && command in l.subcommands && command.name == o.name && key == a.name + " " + o.name
      else key == a.name && command == l;
    assert e in CommandEntries(a, l);
    assert e in LocalEntries(a, locals);
    RegistrationsMembers(received, locals, e);
  }

  /** RegisterCommands: the table, or the key whose second Add threw. */
  function RegisterCommands(received: seq<ApplicationCommand>, locals: seq<Command>): (r: Result<map<string, Command>, string>)
    ensures r.Success? <==> Dictionary.DistinctKeys(Registrations(received, locals))
  {
    Dictionary.AddAll(map[], Registrations(received, locals))
  }

  /** The table holds exactly the keys RegisterCommands describes, each
      with a command it describes for that key. */
  lemma RegisterCommandsTable(received: seq<ApplicationCommand>, locals: seq<Command>, key: string)
    requires RegisterCommands(received, locals).Success?
    ensures var table := RegisterCommands(received, locals).value;
            && (key in table <==> exists c :: Registers(received, locals, key, c))
            && (key in table ==> Registers(received, locals, key, table[key]))
  {
    var es := Registrations(received, locals);
    var table := RegisterCommands(received, locals).value;
    if key in table {
      var i :| 0 <= i < |es| && es[i].0 == key;
      assert es[i] in es;
      RegistrationsAreRegisters(received, locals, key, table[key]);
    }
    if c :| Registers(received, locals, key, c) {
      RegistrationsAreRegisters(received, locals, key, c);
      var i :| 0 <= i < |es| && es[i] == (key, c);
      assert key in Dictionary.KeysOf(es);
    }
  }

  /** A failing registration names a key RegisterCommands describes. */
  lemma RegisterCommandsFailure(received: seq<ApplicationCommand>, locals: seq<Command>)
    requires RegisterCommands(received, locals).Failure?
    ensures exists c :: Registers(received, locals, RegisterCommands(received, locals).error, c)
  {
    var es := Registrations(received, locals);
    var key := RegisterCommands(received, locals).error;
    var i :| 0 <= i < |es| && es[i].0 == key;
    assert es[i] in es;
    RegistrationsAreRegisters(received, locals, key, es[i].1);
  }

  /** ExecuteCommand: the command the interaction's name selects. Running it
      is left to the caller. */
  function ExecuteCommand(commands: map<string, Command>, data: CommandData): (r: Result<Command, ExecuteError>)
    ensures r.Success? <==> GetCommandName(data).Success? && GetCommandName(data).value in commands
    ensures r.Success? ==> r.value == commands[GetCommandName(data).value]
    ensures GetCommandName(data).Success? && GetCommandName(data).value !in commands ==> r == Failure(NotFound)
  {
    match GetCommandName(data)
    case Failure(e) => Failure(NameFailed(e))
    case Success(name) => if name in commands then Success(commands[name]) else Failure(NotFound)
  }

  // ---------------------------------------------------------------------
  // What gets dispatched
  // ---------------------------------------------------------------------

  /** The number of spaces in a string. */
  function Spaces(s: string): (n: nat)
    ensures n <= |s|
    decreases |s|
  {
    if s == [] then 0 else (if s[0] == ' ' then 1 else 0) + Spaces(s[1..])
  }

  lemma {:induction false} SpacesAppend(a: string, b: string)
    ensures Spaces(a + b) == Spaces(a) + Spaces(b)
    decreases |a|
  {
    if a != [] {
      assert (a + b)[0] == a[0];
      assert (a + b)[1..] == a[1..] + b;
      SpacesAppend(a[1..], b);
    } else {
      assert a + b == b;
    }
  }

  /** Each name joined on adds at least its separating space. */
  lemma {:induction false} JoinPathSpaces(acc: string, path: seq<string>)
    ensures Spaces(JoinPath(acc, path)) >= Spaces(acc) + |path|
    decreases |path|
  {
    if path != [] {
      SpacesAppend(acc, " ");
      SpacesAppend(acc + " ", path[0]);
      JoinPathSpaces(acc + " " + path[0], path[1..]);
    }
  }

  /** Discord's command and option names hold no spaces. */
  predicate SpaceFree(s: string) {
    forall i :: 0 <= i < |s| ==> s[i] != ' '
  }

  predicate NamesSpaceFree(received: seq<ApplicationCommand>) {
    && (forall a :: a in received ==> SpaceFree(a.name))
    && (forall a, o :: a in received && a.options.Defined? && o in a.options.value ==> SpaceFree(o.name))
  }

  lemma {:induction false} SpaceFreeHasNoSpaces(s: string)
    requires SpaceFree(s)
    ensures Spaces(s) == 0
    decreases |s|
  {
    if s != [] {
      SpaceFreeHasNoSpaces(s[1..]);
    }
  }

  /** With space-free names every key holds at most one space: a command
      name, or a command and subcommand name. */
  lemma KeysHaveAtMostOneSpace(received: seq<ApplicationCommand>, locals: seq<Command>, key: string, c: Command)
    requires NamesSpaceFree(received)
    requires Registers(received, locals, key, c)
    ensures Spaces(key) <= 1
  {
    var a, l :| a in received && l in locals && a.name == l.name &&
      if HasSubcommandForm(a) then
        exists o :: o in a.options.value && c in l.subcommands && c.name == o.name && key == a.name + " " + o.name
      else key == a.name && c == l;
    SpaceFreeHasNoSpaces(a.name);
    if HasSubcommandForm(a) {
      var o :| o in a.options.value && c in l.subcommands && c.name == o.name && key == a.name + " " + o.name;
      SpaceFreeHasNoSpaces(o.name);
      SpacesAppend(a.name, " ");
      SpacesAppend(a.name + " ", o.name);
    }
  }

  /** An interaction that selects a subcommand of a subcommand group is
      never dispatched: its name has two spaces, and no key has more than one. */
  lemma NestedSubcommandsAreNotFound(received: seq<ApplicationCommand>, locals: seq<Command>, data: CommandData)
    requires NamesSpaceFree(received)
    requires RegisterCommands(received, locals).Success?
    requires PathOf(data).Success? && |PathOf(data).value| >= 2
    ensures ExecuteCommand(RegisterCommands(received, locals).value, data).Failure?
  {
    var commands := RegisterCommands(received, locals).value;
    GetCommandNameIsJoinedPath(data);
    if GetCommandName(data).Success? {
      var name := GetCommandName(data).value;
      JoinPathSpaces(data.name, PathOf(data).value);
      if name in commands {
        RegisterCommandsTable(received, locals, name);
        KeysHaveAtMostOneSpace(received, locals, name, commands[name]);
      }
    }
  }

  /** An interaction that selects one subcommand is dispatched by the key
      "command subcommand", the one RegisterCommands builds for it. */
  lemma OneSubcommandIsCommandSpaceName(data: CommandData)
    requires PathOf(data).Success? && |PathOf(data).value| == 1
    requires Utf16.Length(data.name) + 1 + Utf16.Length(PathOf(data).value[0]) <= NAME_BUFFER
    ensures GetCommandName(data) == Success(data.name + " " + PathOf(data).value[0])
  {
    GetCommandNameIsJoinedPath(data);
    var path := PathOf(data).value;
    SpaceJoinLength(data.name, path[0]);
    assert JoinPath(data.name, path) == JoinPath(data.name + " " + path[0], []);
  }

  /** A plain command is dispatched by its own name. */
  lemma NoSubcommandIsCommandName(data: CommandData)
    requires PathOf(data) == Success([]) && Utf16.Length(data.name) <= NAME_BUFFER
    ensures GetCommandName(data) == Success(data.name)
  {
    GetCommandNameIsJoinedPath(data);
  }

  /** A received command whose option list is defined but empty is taken for
      a command of subcommands and registers nothing. */
  lemma EmptyOptionsRegisterNothing(a: ApplicationCommand, locals: seq<Command>)
    requires a.options == Defined([])
    ensures LocalEntries(a, locals) == []
  {
  }

  /** An interaction naming a registered command and one of its registered
      subcommands is dispatched. */
  lemma SubcommandIsDispatched(received: seq<ApplicationCommand>, locals: seq<Command>, data: CommandData,
                               a: ApplicationCommand, l: Command, o: CommandOption, s: Command)
    requires RegisterCommands(received, locals).Success?
    requires a in received && l in locals && a.name == l.name == data.name && HasSubcommandForm(a)
    requires o in a.options.value && s in l.subcommands && s.name == o.name
    requires PathOf(data) == Success([o.name]) && Utf16.Length(data.name) + 1 + Utf16.Length(o.name) <= NAME_BUFFER
    ensures ExecuteCommand(RegisterCommands(received, locals).value, data).Success?
  {
    OneSubcommandIsCommandSpaceName(data);
    assert Registers(received, locals, data.name + " " + o.name, s);
    RegisterCommandsTable(received, locals, data.name + " " + o.name);
  }

  /** An interaction naming a registered command without subcommands is
      dispatched. */
  lemma CommandIsDispatched(received: seq<ApplicationCommand>, locals: seq<Command>, data: CommandData,
                            a: ApplicationCommand, l: Command)
    requires RegisterCommands(received, locals).Success?
    requires a in received && l in locals && a.name == l.name == data.name && !HasSubcommandForm(a)
    requires PathOf(data) == Success([]) && Utf16.Length(data.name) <= NAME_BUFFER
    ensures ExecuteCommand(RegisterCommands(received, locals).value, data).Success?
  {
    NoSubcommandIsCommandName(data);
    assert Registers(received, locals, data.name, l);
    RegisterCommandsTable(received, locals, data.name);
  }
}
