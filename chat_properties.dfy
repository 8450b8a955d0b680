/** What `reChatParseCommand` promises, mode by mode (A3/specialtopics.py). */
module ChatProperties {
  import opened Options
  import opened PyStrings
  import opened ReChat

  /** Reachable states: disconnected, command mode, or a messaging mode holding a valid name. */
  predicate WellFormed(st: ChatState) {
    || st == Disconnected
    || st == CommandState
    || (st.mode == Some("channel") && st.value.Some? && IsChannelName(st.value.value))
    || (st.mode == Some("dm") && st.value.Some? && HasUserName(st.value.value))
  }

  /** The backslash commands that the dispatch table of a mode has an entry for. */
  predicate InTable(mode: Option<string>, command: string) {
    || (mode == Some("command") && TakesArgument(command))
    || ((mode == Some("channel") || mode == Some("dm")) && (command == "\\leave" || command == "\\read"))
  }

  /** A command word followed by one argument splits into exactly those two words. */
  lemma TwoWords(command: string, arg: string)
    requires ' ' !in command && ' ' !in arg
    ensures Split(command + " " + arg, ' ') == [command, arg]
  {
    assert PyStrings.Join([command, arg], ' ') == command + " " + arg by {
      assert [command, arg][1..] == [arg];
    }
    SplitJoin([command, arg], ' ');
  }

  /** After a quit, whatever comes next is answered with a greeting. */
  lemma QuitThenGreeting(message: string, state: Option<ChatState>, next: string, findAll: FindAll)
    requires ArgumentPresent(message, state) && FindAllContract(findAll)
    requires ParseCommand(message, state, findAll).0 == Quit
    ensures ParseCommand(message, state, findAll).1 == Disconnected
    ensures ParseCommand(next, Some(ParseCommand(message, state, findAll).1), findAll) == (Greeting, CommandState)
  {
  }

  /** `\join X` in command mode enters channel X exactly when X is a channel name. */
  lemma JoinCommand(x: string, st: ChatState, findAll: FindAll)
    requires st.mode == Some("command") && ' ' !in x && !Contains("\\join " + x, "\\quit")
    requires FindAllContract(findAll)
    ensures Split("\\join " + x, ' ') == ["\\join", x]
    ensures ParseCommand("\\join " + x, Some(st), findAll) ==
      if IsChannelName(x) then (Join(x), ChannelState(x)) else (Invalid, st)
  {
    TwoWords("\\join", x);
    assert "\\join " + x == "\\join" + " " + x;
    assert StartsWith("\\join", "\\");
  }

  /** `\list X` in command mode is accepted exactly for "channels" and "users", and stays in command mode. */
  lemma ListCommand(x: string, st: ChatState, findAll: FindAll)
    requires st.mode == Some("command") && ' ' !in x && !Contains("\\list " + x, "\\quit")
    requires FindAllContract(findAll)
    ensures Split("\\list " + x, ' ') == ["\\list", x]
    ensures ParseCommand("\\list " + x, Some(st), findAll) ==
      if x == "channels" || x == "users" then (List(x), CommandState) else (Invalid, st)
  {
    TwoWords("\\list", x);
    assert "\\list " + x == "\\list" + " " + x;
    assert StartsWith("\\list", "\\");
  }

  /** `\dm U` in command mode enters dm mode with U exactly when U contains a user name. */
  lemma DmCommand(x: string, st: ChatState, findAll: FindAll)
    requires st.mode == Some("command") && ' ' !in x && !Contains("\\dm " + x, "\\quit")
    requires FindAllContract(findAll)
    ensures Split("\\dm " + x, ' ') == ["\\dm", x]
    ensures ParseCommand("\\dm " + x, Some(st), findAll) ==
      if HasUserName(x) then (Dm(x), DmState(x)) else (Invalid, st)
  {
    TwoWords("\\dm", x);
    assert "\\dm " + x == "\\dm" + " " + x;
    assert StartsWith("\\dm", "\\");
  }

  /** In command mode only the first two words count: words after the argument are ignored. */
  lemma ExtraWordsIgnored(m1: string, m2: string, st: ChatState, findAll: FindAll)
    requires st.mode == Some("command") && FindAllContract(findAll)
    requires !Contains(m1, "\\quit") && !Contains(m2, "\\quit")
    requires |Split(m1, ' ')| >= 2 && |Split(m2, ' ')| >= 2
    requires Split(m1, ' ')[..2] == Split(m2, ' ')[..2]
    ensures ParseCommand(m1, Some(st), findAll) == ParseCommand(m2, Some(st), findAll)
  {
    assert m1 != "" && m2 != "";
    assert Split(m1, ' ')[0] == Split(m1, ' ')[..2][0];
    assert Split(m1, ' ')[1] == Split(m1, ' ')[..2][1];
    assert Split(m2, ' ')[0] == Split(m2, ' ')[..2][0];
    assert Split(m2, ' ')[1] == Split(m2, ' ')[..2][1];
  }

  /** A backslash command missing from the current mode's table is invalid and leaves the state alone. */
  lemma UnknownCommandInvalid(message: string, st: ChatState, findAll: FindAll)
    requires !Greets(message, Some(st)) && !Contains(message, "\\quit") && FindAllContract(findAll)
    requires StartsWith(Split(message, ' ')[0], "\\") && !InTable(st.mode, Split(message, ' ')[0])
    ensures ArgumentPresent(message, Some(st))
    ensures ParseCommand(message, Some(st), findAll) == (Invalid, st)
  {
  }

  /** A plain message outside the two messaging modes is invalid and leaves the state alone. */
  lemma PlainMessageOutsideMessagingInvalid(message: string, st: ChatState, findAll: FindAll)
    requires !Greets(message, Some(st)) && !Contains(message, "\\quit") && FindAllContract(findAll)
    requires !StartsWith(Split(message, ' ')[0], "\\")
    requires st.mode != Some("channel") && st.mode != Some("dm")
    ensures ArgumentPresent(message, Some(st))
    ensures ParseCommand(message, Some(st), findAll) == (Invalid, st)
  {
  }

  /**
   * In channel or dm mode a plain message is posted whole, to the current
   * channel or user, with the user names it mentions, and the mode is kept.
   */
  lemma PostKeepsState(message: string, st: ChatState, findAll: FindAll)
    requires st.mode == Some("channel") || st.mode == Some("dm")
    requires message != "" && !Contains(message, "\\quit") && FindAllContract(findAll)
    requires !StartsWith(Split(message, ' ')[0], "\\")
    ensures ArgumentPresent(message, Some(st))
    ensures var (action, next) := ParseCommand(message, Some(st), findAll);
      && next == st
      && (if st.mode == Some("channel") then action.PostChannel? else action.PostDM?)
      && action.to == st.value && action.message == message
      && (forall m | m in action.mentions :: IsUserName(m) && Contains(message, m))
      && (action.mentions == {} <==> !HasUserName(message))
  {
  }

  /** In a valid channel, `\leave` returns to command mode and `\read` keeps the state. */
  lemma ChannelLeaveRead(message: string, name: string, findAll: FindAll)
    requires IsChannelName(name) && !Contains(message, "\\quit") && FindAllContract(findAll)
    requires message != ""
    ensures ArgumentPresent(message, Some(ChannelState(name)))
    ensures Split(message, ' ')[0] == "\\leave" ==>
      ParseCommand(message, Some(ChannelState(name)), findAll) == (LeaveChannel(name), CommandState)
    ensures Split(message, ' ')[0] == "\\read" ==>
      ParseCommand(message, Some(ChannelState(name)), findAll) == (ReadChannel(name), ChannelState(name))
  {
  }

  /** In a valid dm, `\leave` returns to command mode and `\read` keeps the state. */
  lemma DmLeaveRead(message: string, user: string, findAll: FindAll)
    requires HasUserName(user) && !Contains(message, "\\quit") && FindAllContract(findAll)
    requires message != ""
    ensures ArgumentPresent(message, Some(DmState(user)))
    ensures Split(message, ' ')[0] == "\\leave" ==>
      ParseCommand(message, Some(DmState(user)), findAll) == (LeaveDM(user), CommandState)
    ensures Split(message, ' ')[0] == "\\read" ==>
      ParseCommand(message, Some(DmState(user)), findAll) == (ReadDM(user), DmState(user))
  {
  }

  /** Starting from no state or a reachable state, every step ends in a reachable state. */
  lemma WellFormedPreserved(message: string, state: Option<ChatState>, findAll: FindAll)
    requires state.Some? ==> WellFormed(state.value)
    requires ArgumentPresent(message, state) && FindAllContract(findAll)
    ensures WellFormed(ParseCommand(message, state, findAll).1)
  {
  }

  // ---------------------------------------------------------------------
  // The patterns on sample names.

  /** A channel name is one word: it never contains a space. */
  lemma ChannelNameHasNoSpace(s: string)
    requires IsChannelName(s)
    ensures ' ' !in s
  {
    forall k | 0 <= k < |s| ensures s[k] != ' ' {
      if k > 0 && !AllAlnum(s[1..]) && k < |s| - 1 {
        assert s[1..|s| - 1][k - 1] == s[k];
      } else if k > 0 && AllAlnum(s[1..]) {
        assert s[1..][k - 1] == s[k];
      }
    }
  }

  /** `#` and one or more letters or digits is a channel name, with or without a final newline. */
  lemma ChannelNames(w: string)
    requires w != "" && AllAlnum(w)
    ensures IsChannelName("#" + w)
    ensures IsChannelName("#" + w + "\n")
  {
    assert ("#" + w)[1..] == w;
    assert ("#" + w + "\n")[1..|w| + 1] == w;
  }

  lemma NotChannelNames()
    ensures !IsChannelName("#") && !IsChannelName("general") && !IsChannelName("#a-b")
  {
    assert !IsAlnum("#a-b"[2]);
    assert "#a-b"[1..][1] == '-';
  }

  lemma UserNameSample()
    ensures IsUserName("@ann@mail.com") && HasUserName("hi @ann@mail.com!")
  {
    var t := "@ann@mail.com";
    assert t[0] == '@' && t[4] == '@' && t[9] == '.';
    assert AllUserChars(t[1..4]) && AllUserChars(t[5..]);
    var m := "hi " + t + "!";
    assert m[3..3 + |t|] == t;
    assert "hi @ann@mail.com!" == m;
  }

  /** Text without an `@` mentions nobody. */
  lemma NoAtNoUserName(s: string)
    requires '@' !in s
    ensures !HasUserName(s)
  {
    forall i, j | 0 <= i <= j <= |s| ensures !IsUserName(s[i..j]) {
      if j > i {
        assert s[i..j][0] == s[i];
      }
    }
  }
}
