/**
 * `reChatParseCommand` (A3/specialtopics.py): one step of a chat client's
 * command interpreter. The state is a one-entry dict `{mode: value}` with
 * mode "command", "channel" or "dm" (`{None: None}` once the user quit);
 * a message produces an action and the next state.
 */
module ReChat {
  import opened Options
  import opened PyStrings

  // ---------------------------------------------------------------------
  // The two patterns.

  predicate IsAlnum(c: char) {
    'a' <= c <= 'z' || 'A' <= c <= 'Z' || '0' <= c <= '9'
  }

  predicate AllAlnum(s: string) {
    forall k :: 0 <= k < |s| ==> IsAlnum(s[k])
  }

  /**
   * `re.findall(r"^#[a-zA-Z0-9]+$", s)` is non-empty: `^` anchors at the
   * start only, and `$` matches at the end or just before a final newline.
   */
  predicate IsChannelName(s: string) {
    && |s| >= 2 && s[0] == '#'
    && (AllAlnum(s[1..]) || (|s| >= 3 && s[|s| - 1] == '\n' && AllAlnum(s[1..|s| - 1])))
  }

  predicate IsUserChar(c: char) {
    'a' <= c <= 'z' || 'A' <= c <= 'Z' || c == '.'
  }

  predicate AllUserChars(s: string) {
    forall k :: 0 <= k < |s| ==> IsUserChar(s[k])
  }

  /** `t` matches `@[a-zA-Z.]+@[a-zA-Z.]+\.[.a-zA-Z]+` as a whole: `@`, a name, `@`, a host, a dot, a suffix. */
  predicate IsUserName(t: string) {
    exists a, d :: 2 <= a && a + 2 <= d && d + 2 <= |t|
      && t[0] == '@' && t[a] == '@' && t[d] == '.'
      && AllUserChars(t[1..a]) && AllUserChars(t[a + 1..])
  }

  /** The user pattern matches somewhere in `s`, so a search for it succeeds. */
  predicate HasUserName(s: string) {
    exists i, j :: 0 <= i <= j <= |s| && IsUserName(s[i..j])
  }

  /** `re.findall` with the user pattern; the regular expression engine is not part of this model. */
  type FindAll = string -> seq<string>

  /** What the engine promises: it finds a match exactly when one exists, and each match occurs in the text. */
  ghost predicate FindAllContract(findAll: FindAll) {
    forall s :: (findAll(s) == [] <==> !HasUserName(s))
      && forall m | m in findAll(s) :: IsUserName(m) && Contains(s, m)
  }

  /** `regex_select(message, user_selector)`: the set of matches. */
  function RegexSelect(message: string, findAll: FindAll): (r: set<string>)
    requires FindAllContract(findAll)
    ensures r == {} <==> !HasUserName(message)
    ensures forall m | m in r :: IsUserName(m) && Contains(message, m)
  {
    var r := set m | m in findAll(message);
    assert findAll(message) != [] ==> findAll(message)[0] in r;
    r
  }

  // ---------------------------------------------------------------------
  // States, actions and the interpreter.

  /** The first entry of the state dict; `None` stands for Python's `None`. */
  datatype ChatState = ChatState(mode: Option<string>, value: Option<string>)

  const CommandState := ChatState(Some("command"), None)
  const Disconnected := ChatState(None, None)

  function ChannelState(name: string): ChatState { ChatState(Some("channel"), Some(name)) }
  function DmState(user: string): ChatState { ChatState(Some("dm"), Some(user)) }

  datatype Action =
    | Greeting
    | Quit
    | Invalid
    | Join(channel: string)
    | List(param: string)
    | Dm(user: string)
    | LeaveChannel(channel: string)
    | ReadChannel(channel: string)
    | LeaveDM(user: string)
    | ReadDM(user: string)
    | PostChannel(to: Option<string>, message: string, mentions: set<string>)
    | PostDM(to: Option<string>, message: string, mentions: set<string>)

  /** The first check: an empty message, no state, or a state whose mode is `None`. */
  predicate Greets(message: string, state: Option<ChatState>) {
    message == "" || state.None? || state.value.mode.None?
  }

  predicate TakesArgument(command: string) {
    command == "\\join" || command == "\\list" || command == "\\dm"
  }

  /**
   * The command-mode handlers read `argv[1]`; a bare `\join`, `\list` or
   * `\dm` raises an uncaught IndexError, so callers must not send one.
   */
  predicate ArgumentPresent(message: string, state: Option<ChatState>) {
    || Greets(message, state)
    || Contains(message, "\\quit")
    || state.value.mode != Some("command")
    || !TakesArgument(Split(message, ' ')[0])
    || |Split(message, ' ')| >= 2
  }

  /** The command-mode dispatch table. */
  function CommandTable(argv: seq<string>, st: ChatState, findAll: FindAll): (Action, ChatState)
    requires |argv| >= 1 && (TakesArgument(argv[0]) ==> |argv| >= 2)
    requires FindAllContract(findAll)
  {
    if argv[0] == "\\join" then
      if IsChannelName(argv[1]) then (Join(argv[1]), ChannelState(argv[1])) else (Invalid, st)
    else if argv[0] == "\\list" then
      if argv[1] == "channels" || argv[1] == "users" then (List(argv[1]), CommandState) else (Invalid, st)
    else if argv[0] == "\\dm" then
      if RegexSelect(argv[1], findAll) != {} then (Dm(argv[1]), DmState(argv[1])) else (Invalid, st)
    else (Invalid, st)
  }

  /** The channel-mode dispatch table. */
  function ChannelTable(argv: seq<string>, st: ChatState): (Action, ChatState)
    requires |argv| >= 1
  {
    var valid := st.value.Some? && IsChannelName(st.value.value);
    if argv[0] == "\\leave" then
      if valid then (LeaveChannel(st.value.value), CommandState) else (Invalid, st)
    else if argv[0] == "\\read" then
      if valid then (ReadChannel(st.value.value), st) else (Invalid, st)
    else (Invalid, st)
  }

  /** The dm-mode dispatch table. */
  function DmTable(argv: seq<string>, st: ChatState, findAll: FindAll): (Action, ChatState)
    requires |argv| >= 1
    requires FindAllContract(findAll)
  {
    var valid := st.value.Some? && RegexSelect(st.value.value, findAll) != {};
    if argv[0] == "\\leave" then
      if valid then (LeaveDM(st.value.value), CommandState) else (Invalid, st)
    else if argv[0] == "\\read" then
      if valid then (ReadDM(st.value.value), st) else (Invalid, st)
    else (Invalid, st)
  }

  /** `reChatParseCommand(message, state)`, returning the action and the next state. */
  function ParseCommand(message: string, state: Option<ChatState>, findAll: FindAll): (r: (Action, ChatState))
    requires ArgumentPresent(message, state)
    requires FindAllContract(findAll)
    ensures Greets(message, state) ==> r == (Greeting, CommandState)
    ensures !Greets(message, state) && Contains(message, "\\quit") ==> r == (Quit, Disconnected)
    ensures r.0 == Greeting <==> Greets(message, state)
    ensures r.0 == Quit <==> !Greets(message, state) && Contains(message, "\\quit")
    ensures r.0 == Invalid ==> state.Some? && r.1 == state.value
  {
    if Greets(message, state) then (Greeting, CommandState)
    else
      var st := state.value;
      if Contains(message, "\\quit") then (Quit, Disconnected)
      else
        var argv := Split(message, ' ');
        if StartsWith(argv[0], "\\") then
          if st.mode == Some("command") then CommandTable(argv, st, findAll)
          else if st.mode == Some("channel") then ChannelTable(argv, st)
          else if st.mode == Some("dm") then DmTable(argv, st, findAll)
          else (Invalid, st)
        else if st.mode == Some("channel") then
          (PostChannel(st.value, message, RegexSelect(message, findAll)), ChatState(Some("channel"), st.value))
        else if st.mode == Some("dm") then
          (PostDM(st.value, message, RegexSelect(message, findAll)), ChatState(Some("dm"), st.value))
        else (Invalid, st)
  }
}
