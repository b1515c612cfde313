/** The message that starts a task: written by src/Process/ProcessManager.cpp, read by src/Process/Monitor.cpp. */
module TaskMessage {
  import opened DataSerializer
  import opened DataRoundTrips

  datatype TaskType = BINARY | SCRIPT

  datatype ParametersMode = CMDLINE | ENV

  datatype Task = Task(
    kind: TaskType, absolutePath: bool, path: string, arguments: seq<string>, mode: ParametersMode,
    parameters: seq<(string, string)>, host: string, user: string, useAgent: bool, workingDirectory: string,
    mergeStderr: bool, script: string, input: string)

  /** What the monitor is to know; the script only if the configuration says that there is one. */
  datatype Message = Message(
    filename: string, tid: int, arguments: seq<string>, config: map<string, string>, env: map<string, string>,
    script: string, input: string)

  const TYPE_KEY := "monitor.task.type"

  predicate IsScript(config: map<string, string>) { TYPE_KEY in config && config[TYPE_KEY] == "SCRIPT" }

  // ---- what a task becomes -------------------------------------------------------------------------

  function YesNo(b: bool): string { if b then "yes" else "no" }

  function ConfigOf(task: Task): map<string, string> {
    map["monitor.ssh.useagent" := YesNo(task.useAgent), "monitor.ssh.host" := task.host,
        "monitor.ssh.user" := task.user, "monitor.wd" := task.workingDirectory,
        "monitor.merge_stderr" := YesNo(task.mergeStderr),
        TYPE_KEY := if task.kind == BINARY then "BINARY" else "SCRIPT"]
  }

  function FilenameOf(task: Task, directory: string): string {
    if task.absolutePath then task.path else directory + "/" + task.path
  }

  function Values(ps: seq<(string, string)>): (vs: seq<string>)
    ensures |vs| == |ps| && forall i :: 0 <= i < |ps| ==> vs[i] == ps[i].1
  {
    seq(|ps|, i requires 0 <= i < |ps| => ps[i].1)
  }

  function ArgumentsOf(task: Task): seq<string> {
    if task.mode == CMDLINE then task.arguments + Values(task.parameters) else task.arguments
  }

  /** Later parameters of a name replace earlier ones, and those set first. */
  function WithParameters(env: map<string, string>, ps: seq<(string, string)>): map<string, string> {
    if ps == [] then env
    else
      var last := ps[|ps| - 1];
      WithParameters(env, ps[..|ps| - 1])[last.0 := last.1]
  }

  const BASE_ENV := map["EVQUEUE_IPC_QID" := "0", "EVQUEUE_ENV" := "true"]

  function EnvOf(task: Task): map<string, string> {
    if task.mode == ENV then WithParameters(BASE_ENV, task.parameters) else BASE_ENV
  }

  function MessageOf(task: Task, tid: int, directory: string): Message {
    Message(FilenameOf(task, directory), tid, ArgumentsOf(task), ConfigOf(task), EnvOf(task),
            if task.kind == SCRIPT then task.script else [], task.input)
  }

  // ---- the two sides -------------------------------------------------------------------------------

  ghost predicate IsWritten(m: Message, data: string) {
    exists config, env :: IsSerializedMap(m.config, config) && IsSerializedMap(m.env, env)
                          && data == Written(m, config, env)
  }

  function Written(m: Message, config: string, env: string): string {
    SerializedString(m.filename) + (SerializedInt(m.tid) + (SerializedVector(m.arguments) + (config + (env
      + ((if IsScript(m.config) then SerializedString(m.script) else []) + SerializedString(m.input))))))
  }

  /** The reader; it goes on after arguments that could not be read, and the type must be configured. */
  function ParsedMessage(s: string): Parsed<Option<Message>> {
    var f := ParsedString(s);
    if !f.ok then Parsed(false, None, f.rest) else
    var t := ParsedInt(f.rest);
    if !t.ok then Parsed(false, None, t.rest) else
    var a := ParsedVector(t.rest, []);
    var c := ParsedMap(a.rest, map[]);
    if !c.ok then Parsed(false, None, c.rest) else
    var e := ParsedMap(c.rest, map[]);
    if !e.ok || TYPE_KEY !in c.value then Parsed(false, None, e.rest) else
    var x := if IsScript(c.value) then ParsedString(e.rest) else Parsed(true, [], e.rest);
    if !x.ok then Parsed(false, None, x.rest) else
    var i := ParsedString(x.rest);
    if !i.ok then Parsed(false, None, i.rest)
    else Parsed(true, Some(Message(f.value, t.value, a.value, c.value, e.value, x.value, i.value)), i.rest)
  }

  /** None is the exception for a remote script without the agent. */
  method ExecuteTask(task: Task, tid: int, directory: string) returns (data: Option<string>)
    ensures data.None? <==> task.kind == SCRIPT && task.host != "" && !task.useAgent
    ensures data.Some? ==> IsWritten(MessageOf(task, tid, directory), data.value)
  {
    hide SerializedString, SerializedInt, SerializedVector, IsSerializedMap;
    if task.kind == SCRIPT && task.host != "" && !task.useAgent {
      return None;
    }
    var filename := if task.absolutePath then task.path else directory + "/" + task.path;
    var arguments := Arguments(task);
    var env := Env(task);
    var config := ConfigOf(task);
    ConfigHasType(task);
    var f := SerializeString(filename);
    var t := SerializeInt(tid);
    var a := SerializeVector(arguments);
    var c := SerializeMap(config);
    var e := SerializeMap(env);
    var x := "";
    if task.kind == SCRIPT {
      x := SerializeString(task.script);
    }
    var i := SerializeString(task.input);
    ghost var m := MessageOf(task, tid, directory);
    Associate7(f, t, a, c, e, x, i);
    var all := f + t + a + c + e + x + i;
    assert all == Written(m, c, e);
    data := Some(all);
  }

  lemma ConfigHasType(task: Task)
    ensures TYPE_KEY in ConfigOf(task) && (IsScript(ConfigOf(task)) <==> task.kind == SCRIPT)
  {
    assert "BINARY" != "SCRIPT" by { assert "BINARY"[0] != "SCRIPT"[0]; }
  }

  lemma Associate7(f: string, t: string, a: string, c: string, e: string, x: string, i: string)
    ensures f + t + a + c + e + x + i == f + (t + (a + (c + (e + (x + i)))))
  {
    Associate3(f + t + a + c + e, x, i);
    Associate3(f + t + a + c, e, x + i);
    Associate3(f + t + a, c, e + (x + i));
    Associate3(f + t, a, c + (e + (x + i)));
    Associate3(f, t, a + (c + (e + (x + i))));
  }

  lemma Associate3(a: string, b: string, c: string)
    ensures a + b + c == a + (b + c)
  {
  }

  method Arguments(task: Task) returns (arguments: seq<string>)
    ensures arguments == ArgumentsOf(task)
  {
    arguments := [];
    for i := 0 to |task.arguments|
      invariant arguments == task.arguments[..i]
    {
      arguments := arguments + [task.arguments[i]];
    }
    if task.mode == CMDLINE {
      for i := 0 to |task.parameters|
        invariant arguments == task.arguments + Values(task.parameters)[..i]
      {
        arguments := arguments + [task.parameters[i].1];
      }
    }
  }

  method Env(task: Task) returns (env: map<string, string>)
    ensures env == EnvOf(task)
  {
    env := BASE_ENV;
    if task.mode == ENV {
      for i := 0 to |task.parameters|
        invariant env == WithParameters(BASE_ENV, task.parameters[..i])
      {
        env := env[task.parameters[i].0 := task.parameters[i].1];
        assert task.parameters[..i + 1][..i] == task.parameters[..i];
      }
      assert task.parameters[..|task.parameters|] == task.parameters;
    }
  }

  method ReadMessage(fd: Stream) returns (ok: bool, m: Option<Message>)
    modifies fd
    ensures Parsed(ok, m, fd.data) == ParsedMessage(old(fd.data))
  {
    hide ParsedString, ParsedInt, ParsedVector, ParsedMap, IsScript;
    m := None;
    var filename, tid, arguments, config, env, script, input, read;
    ok, filename := UnserializeString(fd);
    if !ok { return; }
    ok, tid := UnserializeInt(fd);
    if !ok { return; }
    read, arguments := UnserializeVector(fd, []);
    ok, config := UnserializeMap(fd, map[]);
    if !ok { return; }
    ok, env := UnserializeMap(fd, map[]);
    if !ok { return; }
    if TYPE_KEY !in config { return false, None; }
    script := [];
    if IsScript(config) {
      ok, script := UnserializeString(fd);
      if !ok { return; }
    }
    ok, input := UnserializeString(fd);
    if !ok { return; }
    m := Some(Message(filename, tid, arguments, config, env, script, input));
  }

  // ---- the message that arrives --------------------------------------------------------------------

  /** The lengths and counts have room in their fields, and the maps hold C strings with names. */
  predicate MessageFits(m: Message) {
    && |m.filename| < BILLION && Fits(m.arguments) && MapFits(m.config) && MapFits(m.env)
    && |m.script| < BILLION && |m.input| < BILLION
  }

  lemma ReadTid(tid: int, rest: string)
    requires IsInt32(tid)
    ensures ParsedInt(SerializedInt(tid) + rest) == Parsed(true, tid, rest)
  {
    TextLength(tid);
    IntExactly(tid, rest);
  }

  lemma ReadWritten(m: Message, config: string, env: string, rest: string)
    requires MessageFits(m) && IsInt32(m.tid) && TYPE_KEY in m.config && (!IsScript(m.config) ==> m.script == [])
    requires IsSerializedMap(m.config, config) && IsSerializedMap(m.env, env)
    ensures ParsedMessage(Written(m, config, env) + rest) == Parsed(true, Some(m), rest)
  {
    hide SerializedString, SerializedInt, SerializedVector, IsSerializedMap, IsScript, MapFits, Fits;
    hide ParsedString, ParsedInt, ParsedVector, ParsedMap;
    var script := if IsScript(m.config) then SerializedString(m.script) else [];
    var r6 := SerializedString(m.input) + rest;
    var r5 := script + r6;
    var r4 := env + r5;
    var r3 := config + r4;
    var r2 := SerializedVector(m.arguments) + r3;
    var r1 := SerializedInt(m.tid) + r2;
    Behind7(SerializedString(m.filename), SerializedInt(m.tid), SerializedVector(m.arguments), config, env, script,
            SerializedString(m.input), rest);
    ReadString(m.filename, r1);
    ReadTid(m.tid, r2);
    ReadVector(m.arguments, r3);
    ReadMap(m.config, config, r4);
    ReadMap(m.env, env, r5);
    if IsScript(m.config) {
      ReadString(m.script, r6);
    } else {
      assert r5 == r6;
    }
    ReadString(m.input, rest);
  }

  lemma Behind7(f: string, t: string, a: string, c: string, e: string, x: string, i: string, rest: string)
    ensures f + (t + (a + (c + (e + (x + i))))) + rest == f + (t + (a + (c + (e + (x + (i + rest))))))
  {
    Associate3(f, t + (a + (c + (e + (x + i)))), rest);
    Associate3(t, a + (c + (e + (x + i))), rest);
    Associate3(a, c + (e + (x + i)), rest);
    Associate3(c, e + (x + i), rest);
    Associate3(e, x + i, rest);
    Associate3(x, i, rest);
  }

  /** Whatever is read fits. */
  lemma ParsedFits(s: string)
    ensures var p := ParsedMessage(s); p.ok ==> p.value.Some? && MessageFits(p.value.value)
  {
    hide ParsedString, ParsedInt, ParsedVector, ParsedMap, IsScript, MapFits, Fits;
    var f := ParsedString(s);
    StringBound(s);
    var a := ParsedVector(ParsedInt(f.rest).rest, []);
    VectorBound(ParsedInt(f.rest).rest);
    var c := ParsedMap(a.rest, map[]);
    MapBound(a.rest);
    var e := ParsedMap(c.rest, map[]);
    MapBound(c.rest);
    StringBound(e.rest);
    StringBound(ParsedString(e.rest).rest);
  }

  /**
   The monitor reads back exactly what the engine meant, with whatever follows untouched, if and only if the message
   fits; and that for any short reads, as the reader's contract is about the whole stream.
   */
  lemma MessageExactly(task: Task, tid: int, directory: string, data: string)
    requires IsInt32(tid) && IsWritten(MessageOf(task, tid, directory), data)
    ensures (forall rest :: ParsedMessage(data + rest) == Parsed(true, Some(MessageOf(task, tid, directory)), rest))
       <==> MessageFits(MessageOf(task, tid, directory))
  {
    hide ParsedMessage, MessageFits, IsSerializedMap, Written;
    var m := MessageOf(task, tid, directory);
    if MessageFits(m) {
      var config, env :| IsSerializedMap(m.config, config) && IsSerializedMap(m.env, env)
                         && data == Written(m, config, env);
      ConfigHasType(task);
      forall rest
        ensures ParsedMessage(data + rest) == Parsed(true, Some(m), rest)
      {
        ReadWritten(m, config, env, rest);
      }
    } else {
      ParsedFits(data + []);
    }
  }

  // ---- what the monitor makes of it ----------------------------------------------------------------

  /** Where the monitor runs a task, from the configuration it has read; None is on its own machine. */
  function SshTarget(config: map<string, string>): Option<string>
    requires "monitor.ssh.host" in config && "monitor.ssh.user" in config
  {
    var host, user := config["monitor.ssh.host"], config["monitor.ssh.user"];
    if host == "" then None else if user != "" then Some(user + "@" + host) else Some(host)
  }

  function Flag(text: string): bool { text == "yes" || text == "true" || text == "1" }

  lemma KeysDiffer()
    ensures "monitor.ssh.user" != "monitor.ssh.host" && "monitor.ssh.useagent" != "monitor.merge_stderr"
    ensures |"monitor.ssh.useagent"| == |"monitor.merge_stderr"| == 20 && |"monitor.wd"| == 10
    ensures |"monitor.ssh.user"| == |"monitor.ssh.host"| == 16 && |"monitor.task.type"| == 17
  {
    assert "monitor.ssh.user"[12] != "monitor.ssh.host"[12];
    assert "monitor.ssh.useagent"[8] != "monitor.merge_stderr"[8];
  }

  lemma Flags(b: bool)
    ensures Flag(YesNo(b)) == b && (YesNo(b) == "yes") == b
  {
    assert "no"[0] != "yes"[0] && "no"[0] != "true"[0] && "no"[0] != "1"[0];
  }

  /** Each setting of the task under its own key, and no other key. */
  predicate TellsSettings(config: map<string, string>, task: Task) {
    && config.Keys == {"monitor.ssh.useagent", "monitor.ssh.host", "monitor.ssh.user", "monitor.wd",
                       "monitor.merge_stderr", "monitor.task.type"}
    && config["monitor.ssh.host"] == task.host && config["monitor.ssh.user"] == task.user
    && config["monitor.wd"] == task.workingDirectory
    && Flag(config["monitor.ssh.useagent"]) == task.useAgent
    && (config["monitor.merge_stderr"] == "yes") == task.mergeStderr
    && config["monitor.task.type"] == if task.kind == SCRIPT then "SCRIPT" else "BINARY"
  }

  lemma ConfigTells(task: Task)
    ensures TellsSettings(ConfigOf(task), task)
  {
    KeysDiffer();
    Flags(task.useAgent);
    Flags(task.mergeStderr);
    hide Flag, YesNo;
  }

  /** The target of a task with these settings. */
  lemma TargetIs(config: map<string, string>, task: Task)
    requires TellsSettings(config, task)
    ensures SshTarget(config) == if task.host == "" then None
                                 else if task.user == "" then Some(task.host) else Some(task.user + "@" + task.host)
  {
  }

  lemma FilenameIs(task: Task, directory: string)
    ensures FilenameOf(task, directory) == if task.absolutePath then task.path else directory + "/" + task.path
    ensures FilenameOf(task, directory) == task.path <==> task.absolutePath
  {
    assert |directory + "/" + task.path| > |task.path|;
  }

  /** The arguments of the task, and the values of its parameters behind them if they go on the command line. */
  predicate TellsArguments(arguments: seq<string>, task: Task) {
    var n := |task.arguments|;
    && |arguments| == n + (if task.mode == CMDLINE then |task.parameters| else 0)
    && (forall i :: 0 <= i < n ==> arguments[i] == task.arguments[i])
    && (task.mode == CMDLINE ==> forall i :: 0 <= i < |task.parameters| ==> arguments[n + i] == task.parameters[i].1)
  }

  predicate IsLastOf(ps: seq<(string, string)>, i: nat) {
    i < |ps| && forall j :: i < j < |ps| ==> ps[j].0 != ps[i].0
  }

  ghost predicate IsParameter(ps: seq<(string, string)>, n: string) { exists i :: 0 <= i < |ps| && ps[i].0 == n }

  /** The value of a variable is that of the last parameter of its name, and those without one are as given. */
  ghost predicate TellsEnv(env: map<string, string>, ps: seq<(string, string)>) {
    && (forall i :: 0 <= i < |ps| && IsLastOf(ps, i) ==> ps[i].0 in env && env[ps[i].0] == ps[i].1)
    && (forall n :: n in env <==> IsParameter(ps, n) || n == "EVQUEUE_IPC_QID" || n == "EVQUEUE_ENV")
    && (!IsParameter(ps, "EVQUEUE_IPC_QID") ==> env["EVQUEUE_IPC_QID"] == "0")
    && (!IsParameter(ps, "EVQUEUE_ENV") ==> env["EVQUEUE_ENV"] == "true")
  }

  lemma {:induction false} LastParameterHolds(env: map<string, string>, ps: seq<(string, string)>)
    ensures forall i :: 0 <= i < |ps| && IsLastOf(ps, i) ==>
              ps[i].0 in WithParameters(env, ps) && WithParameters(env, ps)[ps[i].0] == ps[i].1
    ensures forall n :: n in WithParameters(env, ps) <==> IsParameter(ps, n) || n in env
    ensures forall n :: n in env && !IsParameter(ps, n) ==> WithParameters(env, ps)[n] == env[n]
  {
    if ps != [] {
      var front := ps[..|ps| - 1];
      LastParameterHolds(env, front);
      forall i | 0 <= i < |ps| && IsLastOf(ps, i)
        ensures ps[i].0 in WithParameters(env, ps) && WithParameters(env, ps)[ps[i].0] == ps[i].1
      {
        if i < |ps| - 1 { assert front[i] == ps[i] && IsLastOf(front, i); }
      }
      forall n
        ensures IsParameter(ps, n) <==> IsParameter(front, n) || ps[|ps| - 1].0 == n
      {
        if i :| 0 <= i < |ps| && ps[i].0 == n && i < |ps| - 1 { assert front[i].0 == n; }
      }
    }
  }

  lemma ArgumentsTell(task: Task)
    ensures TellsArguments(ArgumentsOf(task), task)
  {
  }

  lemma EnvTells(task: Task)
    ensures TellsEnv(EnvOf(task), if task.mode == ENV then task.parameters else [])
  {
    LastParameterHolds(BASE_ENV, if task.mode == ENV then task.parameters else []);
    BaseEnv();
    hide IsLastOf, IsParameter;
    assert EnvOf(task) == WithParameters(BASE_ENV, if task.mode == ENV then task.parameters else []);
  }

  lemma BaseEnv()
    ensures forall n :: n in BASE_ENV <==> n == "EVQUEUE_IPC_QID" || n == "EVQUEUE_ENV"
    ensures BASE_ENV["EVQUEUE_IPC_QID"] == "0" && BASE_ENV["EVQUEUE_ENV"] == "true"
  {
    assert |"EVQUEUE_IPC_QID"| == 15 && |"EVQUEUE_ENV"| == 11;
  }

  /**
   What the monitor reads of a message that fits tells it the task: each setting under its own key, and the file by its
   path alone exactly if that is absolute; so a task with a host runs there, as its user if it has one, and any other
   task on the monitor's machine.
   */
  lemma MonitorKnowsTask(task: Task, tid: int, directory: string, data: string, rest: string)
    requires IsInt32(tid) && IsWritten(MessageOf(task, tid, directory), data)
    requires MessageFits(MessageOf(task, tid, directory))
    ensures var p := ParsedMessage(data + rest);
            && p.ok && p.value.Some? && p.rest == rest
            && var m := p.value.value;
            && TellsSettings(m.config, task) && TellsArguments(m.arguments, task)
            && TellsEnv(m.env, if task.mode == ENV then task.parameters else [])
            && SshTarget(m.config) == (if task.host == "" then None
                                       else if task.user == "" then Some(task.host) else Some(task.user + "@" + task.host))
            && m.tid == tid && m.input == task.input && (task.kind == SCRIPT ==> m.script == task.script)
            && m.filename == (if task.absolutePath then task.path else directory + "/" + task.path)
            && (m.filename == task.path <==> task.absolutePath)
  {
    MessageExactly(task, tid, directory, data);
    assert ParsedMessage(data + rest) == Parsed(true, Some(MessageOf(task, tid, directory)), rest);
    ConfigTells(task);
    TargetIs(ConfigOf(task), task);
    FilenameIs(task, directory);
    ArgumentsTell(task);
    EnvTells(task);
    hide TellsSettings, TellsArguments, TellsEnv, ArgumentsOf, EnvOf;
    hide ParsedMessage, MessageFits, Written, IsSerializedMap, ConfigOf, SshTarget, FilenameOf, Flag;
  }
}
