/** `handle_client`: the per-connection command dispatcher of the chat
    server, as a pure step over the shared `users` registry and the
    session's `username`, driven by one received chunk of text.

    Each step yields the next state, the messages written (to the session's
    own socket or to another user's) and whether the session goes on. When
    the session ends, the `finally` teardown has already been applied. */
module Server {

  import opened Wrappers
  import opened Text
  import opened Users
  import opened Usernames
  import opened Protocol

  /** One `send` on a socket. */
  datatype Outgoing = Outgoing(to: ConnId, text: string)

  /** What one `handle_client` thread works with: the shared registry,
      its own socket and its `username` local (`None` before registering). */
  datatype State = State(users: Registry, conn: ConnId, username: Option<string>)

  datatype Transition = Transition(next: State, outputs: seq<Outgoing>, open: bool)

  /** Python truthiness of `username`: set and not empty. */
  predicate HasUsername(username: Option<string>)
  {
    username.Some? && username.value != ""
  }

  /** Every registered name is a token of `str.split()`, bound once. */
  predicate ValidUsers(users: Registry)
  {
    Distinct(users) && forall n :: n in Names(users) ==> IsWord(n)
  }

  predicate Valid(st: State)
  {
    ValidUsers(st.users) && (st.username.Some? ==> IsWord(st.username.value))
  }

  /** The message asks to register a name that is already bound. */
  predicate RequestsTakenName(users: Registry, msg: string)
  {
    StartsWith(msg, RegisterCommand) && |Words(msg)| >= 2 && Words(msg)[1] in Names(users)
  }

  /** `suffix` is one `generate_unique_username` may settle on for `msg`:
      four alphanumerics that make the requested name free. It matters only
      when the requested name is taken. */
  predicate SuffixFits(users: Registry, msg: string, suffix: string)
  {
    RequestsTakenName(users, msg) ==>
      IsSuffix(suffix) && Qualify(Words(msg)[1], suffix) !in Names(users)
  }

  /** The `finally` block: `if username in users: del users[username]`. */
  function Teardown(users: Registry, username: Option<string>): (r: Registry)
    ensures username.Some? ==> Lookup(r, username.value) == None
    ensures forall n :: username != Some(n) ==> Lookup(r, n) == Lookup(users, n)
    ensures username.None? || username.value !in Names(users) ==> r == users
    ensures |r| <= |users|
  {
    if username.Some? && username.value in Names(users) then Remove(users, username.value)
    else users
  }

  /** A socket the session can write to: its own, or one bound to a name. */
  predicate Addressable(st: State, to: ConnId)
  {
    to == st.conn || exists n | n in Names(st.users) :: Lookup(st.users, n) == Some(to)
  }

  /** Leave the loop and run the teardown. */
  function Close(st: State, outputs: seq<Outgoing>): Transition
  {
    Transition(st.(users := Teardown(st.users, st.username)), outputs, false)
  }

  /** Answer on the session's own socket and keep going with the state as is. */
  function Reply(st: State, text: string): Transition
  {
    Transition(st, [Outgoing(st.conn, text)], true)
  }

  /** Bind `name` to the session's socket and make it the session's name. */
  function Bind(st: State, name: string, text: string): Transition
  {
    Transition(State(Put(st.users, name, st.conn), st.conn, Some(name)), [Outgoing(st.conn, text)], true)
  }

  /** One turn of the `while True` loop of `handle_client` on the chunk
      `msg`. `suffix` stands for the random choice of
      `generate_unique_username`; `peerWriteFails` says whether the `send`
      to a recipient's socket raises. */
  function Step(st: State, msg: string, suffix: string, peerWriteFails: bool): (t: Transition)
    requires SuffixFits(st.users, msg, suffix)
    ensures t.next.conn == st.conn
    ensures |t.outputs| <= 1
    ensures |t.next.users| <= |st.users| + 1
    ensures forall k :: 0 <= k < |t.outputs| ==> Addressable(st, t.outputs[k].to)
  {
    if msg == "" then
      Close(st, [])
    else if StartsWith(msg, RegisterCommand) then
      var words := Words(msg);
      if |words| < 2 then
        // `message.split()[1]` raises IndexError: the session ends
        Close(st, [])
      else if words[1] in Names(st.users) then
        var name := Qualify(words[1], suffix);
        Bind(st, name, TakenNotice(name))
      else
        Bind(st, words[1], Welcome(words[1]))
    else if !HasUsername(st.username) then
      Reply(st, NotRegisteredError)
    else if StartsWith(msg, WhoCommand) then
      Reply(st, WhoReply(Names(st.users)))
    else if StartsWith(msg, ExitCommand) then
      Close(st, [Outgoing(st.conn, Goodbye)])
    else if ':' !in msg then
      Reply(st, InvalidFormatError)
    else
      var parts := SplitAtFirst(msg, ':');
      var recipient, body := parts.0, parts.1;
      match Lookup(st.users, recipient)
      case Some(peer) =>
        if peerWriteFails then Reply(st, SendFailedError)
        else
          assert Addressable(st, peer) by {
            assert Lookup(st.users, recipient) == Some(peer);
          }
          Transition(st, [Outgoing(peer, Forward(st.username.value, body))], true)
      case None =>
        Reply(st, RecipientNotFoundError)
  }

  // ---------------------------------------------------------------------
  // One step, branch by branch

  /** Registering a free name binds it to the calling connection, makes it
      the session's name and welcomes the user; no other binding changes
      and the new name goes last in the listing order. */
  lemma RegisterFreeName(st: State, msg: string, suffix: string, peerWriteFails: bool)
    requires StartsWith(msg, RegisterCommand)
    requires |Words(msg)| >= 2 && Words(msg)[1] !in Names(st.users)
    ensures var name := Words(msg)[1];
      var t := Step(st, msg, suffix, peerWriteFails);
      && t.open
      && t.next.username == Some(name)
      && Lookup(t.next.users, name) == Some(st.conn)
      && (forall n :: n != name ==> Lookup(t.next.users, n) == Lookup(st.users, n))
      && Names(t.next.users) == Names(st.users) + [name]
      && t.outputs == [Outgoing(st.conn, Welcome(name))]
  {
    PutNames(st.users, Words(msg)[1], st.conn);
  }

  /** Registering a taken name leaves its owner alone and binds instead a
      fresh `name_XXXX` with an alphanumeric four-character suffix. */
  lemma RegisterTakenName(st: State, msg: string, suffix: string, peerWriteFails: bool)
    requires RequestsTakenName(st.users, msg)
    requires SuffixFits(st.users, msg, suffix)
    ensures var base := Words(msg)[1];
      var name := Qualify(base, suffix);
      var t := Step(st, msg, suffix, peerWriteFails);
      && t.open
      && IsSuffix(suffix) && name !in Names(st.users)
      && Lookup(t.next.users, base) == Lookup(st.users, base)
      && t.next.username == Some(name)
      && Lookup(t.next.users, name) == Some(st.conn)
      && (forall n :: n != name ==> Lookup(t.next.users, n) == Lookup(st.users, n))
      && t.outputs == [Outgoing(st.conn, TakenNotice(name))]
  {
    assert Words(msg)[1] != Qualify(Words(msg)[1], suffix);
  }

  /** `server:register` with no name after it raises, which ends the
      session and runs the teardown. */
  lemma RegisterWithoutName(st: State, msg: string, suffix: string, peerWriteFails: bool)
    requires StartsWith(msg, RegisterCommand) && |Words(msg)| < 2
    ensures var t := Step(st, msg, suffix, peerWriteFails);
      && !t.open
      && t.outputs == []
      && t.next.users == Teardown(st.users, st.username)
  {
  }

  /** Before registering, everything but a registration request is refused
      with the same error and nothing changes. */
  lemma UnregisteredRejected(st: State, msg: string, suffix: string, peerWriteFails: bool)
    requires !HasUsername(st.username)
    requires msg != "" && !StartsWith(msg, RegisterCommand)
    ensures var t := Step(st, msg, suffix, peerWriteFails);
      t == Transition(st, [Outgoing(st.conn, NotRegisteredError)], true)
  {
  }

  /** The session's inputs that reach the command branches: a registered
      session and a chunk that is not a registration request. */
  predicate Dispatched(st: State, msg: string)
  {
    HasUsername(st.username) && msg != "" && !StartsWith(msg, RegisterCommand)
  }

  /** `server:who` (or anything starting with it) lists every registered
      name, in registration order, and changes nothing. */
  lemma WhoListsUsers(st: State, msg: string, suffix: string, peerWriteFails: bool)
    requires Dispatched(st, msg) && StartsWith(msg, WhoCommand)
    requires ValidUsers(st.users)
    ensures var t := Step(st, msg, suffix, peerWriteFails);
      && t.open
      && t.next == st
      && t.outputs == [Outgoing(st.conn, WhoPrefix + Join(Names(st.users), ListSeparator))]
      && ParseWhoReply(t.outputs[0].text) == Some(Names(st.users))
  {
    var names := Names(st.users);
    forall i | 0 <= i < |names|
      ensures IsWord(names[i])
    {
      assert names[i] in names;
    }
    WhoReplyRoundTrip(names);
  }

  /** `startswith` matching: `server:whoever` is answered as `server:who`. */
  lemma WhoeverIsWho(st: State, suffix: string, peerWriteFails: bool)
    requires HasUsername(st.username)
    ensures Step(st, "server:whoever", suffix, peerWriteFails)
      == Transition(st, [Outgoing(st.conn, WhoReply(Names(st.users)))], true)
  {
    assert StartsWith("server:whoever", WhoCommand);
  }

  /** `server:exit` says goodbye, ends the session, and the teardown
      unbinds the session's current name and nothing else. */
  lemma ExitEndsSession(st: State, msg: string, suffix: string, peerWriteFails: bool)
    requires Dispatched(st, msg) && !StartsWith(msg, WhoCommand) && StartsWith(msg, ExitCommand)
    ensures var t := Step(st, msg, suffix, peerWriteFails);
      && !t.open
      && t.outputs == [Outgoing(st.conn, Goodbye)]
      && Lookup(t.next.users, st.username.value) == None
      && (forall n :: n != st.username.value ==> Lookup(t.next.users, n) == Lookup(st.users, n))
  {
  }

  /** End of stream ends the session silently with the same teardown,
      registered or not; with no name bound it changes nothing. */
  lemma HangupTearsDown(st: State, suffix: string, peerWriteFails: bool)
    ensures var t := Step(st, "", suffix, peerWriteFails);
      && !t.open
      && t.outputs == []
      && (st.username.Some? ==> Lookup(t.next.users, st.username.value) == None)
      && (forall n :: st.username != Some(n) ==> Lookup(t.next.users, n) == Lookup(st.users, n))
      && (st.username.None? || st.username.value !in Names(st.users) ==> t.next.users == st.users)
  {
  }

  /** A chunk without `:` that is no command is refused; nothing changes. */
  lemma MalformedRejected(st: State, msg: string, suffix: string, peerWriteFails: bool)
    requires Dispatched(st, msg) && !StartsWith(msg, WhoCommand) && !StartsWith(msg, ExitCommand)
    requires ':' !in msg
    ensures Step(st, msg, suffix, peerWriteFails)
      == Transition(st, [Outgoing(st.conn, InvalidFormatError)], true)
  {
  }

  /** A directed message goes, as `sender: body`, to the connection bound
      to the text before the first `:`, and to no one else; the state does
      not change. An unknown recipient or a failing write is reported to
      the sender alone. */
  lemma DirectMessageRouted(st: State, msg: string, suffix: string, peerWriteFails: bool)
    requires Dispatched(st, msg) && !StartsWith(msg, WhoCommand) && !StartsWith(msg, ExitCommand)
    requires ':' in msg
    ensures var (recipient, body) := SplitAtFirst(msg, ':');
      var t := Step(st, msg, suffix, peerWriteFails);
      && t.open
      && t.next == st
      && msg == recipient + ":" + body
      && ':' !in recipient
      && (Lookup(st.users, recipient).Some? && !peerWriteFails ==>
            t.outputs == [Outgoing(Lookup(st.users, recipient).value, Forward(st.username.value, body))])
      && (Lookup(st.users, recipient).Some? && peerWriteFails ==>
            t.outputs == [Outgoing(st.conn, SendFailedError)])
      && (recipient !in Names(st.users) ==>
            t.outputs == [Outgoing(st.conn, RecipientNotFoundError)])
  {
  }

  // ---------------------------------------------------------------------
  // What the client sends

  /** The client's registration request for a one-word name binds exactly
      that name when it is free. */
  lemma ClientRegisters(st: State, username: string, suffix: string, peerWriteFails: bool)
    requires IsWord(username) && username !in Names(st.users)
    ensures !RequestsTakenName(st.users, RegisterRequest(username))
    ensures var t := Step(st, RegisterRequest(username), suffix, peerWriteFails);
      && t.open
      && t.next.username == Some(username)
      && Lookup(t.next.users, username) == Some(st.conn)
      && t.outputs == [Outgoing(st.conn, Welcome(username))]
  {
    RegisterRequestWords(username);
    WordsOfWord(username);
    RegisterFreeName(st, RegisterRequest(username), suffix, peerWriteFails);
  }

  /** An empty name at the client's prompt (or one of whitespace only)
      sends `server:register ` with nothing after it, which ends the
      session. */
  lemma ClientEmptyNameEndsSession(st: State, username: string, suffix: string, peerWriteFails: bool)
    requires Words(username) == []
    ensures |Words(RegisterRequest(username))| < 2
    ensures !Step(st, RegisterRequest(username), suffix, peerWriteFails).open
  {
    RegisterRequestWords(username);
    RegisterWithoutName(st, RegisterRequest(username), suffix, peerWriteFails);
  }

  /** The client's directed message to a user not called `server`
      reaches that user's connection with the text the client typed. */
  lemma ClientMessageRouted(st: State, recipient: string, message: string, suffix: string)
    requires HasUsername(st.username)
    requires ':' !in recipient && recipient != "server"
    requires Lookup(st.users, recipient).Some?
    ensures !StartsWith(DirectRequest(recipient, message), RegisterCommand)
    ensures Step(st, DirectRequest(recipient, message), suffix, false)
      == Transition(st, [Outgoing(Lookup(st.users, recipient).value, Forward(st.username.value, message))], true)
  {
    var msg := DirectRequest(recipient, message);
    DirectRequestIsNotCommand(recipient, message, RegisterCommand);
    DirectRequestIsNotCommand(recipient, message, WhoCommand);
    DirectRequestIsNotCommand(recipient, message, ExitCommand);
    DirectRequestRoundTrip(recipient, message);
    DirectMessageRouted(st, msg, suffix, false);
  }

  // ---------------------------------------------------------------------
  // Several steps

  lemma TeardownKeepsValid(users: Registry, username: Option<string>)
    requires ValidUsers(users)
    ensures ValidUsers(Teardown(users, username))
  {
    var r := Teardown(users, username);
    if username.Some? {
      RemoveKeepsDistinct(users, username.value);
    }
    forall n | n in Names(r)
      ensures IsWord(n)
    {
      assert Lookup(r, n) == Lookup(users, n);
    }
  }

  lemma PutKeepsValid(users: Registry, name: string, conn: ConnId)
    requires ValidUsers(users) && IsWord(name)
    ensures ValidUsers(Put(users, name, conn))
  {
    PutKeepsDistinct(users, name, conn);
    PutNames(users, name, conn);
  }

  /** A suffixed name is still a single whitespace-free token. */
  lemma QualifiedIsWord(base: string, suffix: string)
    requires IsWord(base) && IsSuffix(suffix)
    ensures IsWord(Qualify(base, suffix))
  {
    var name := Qualify(base, suffix);
    forall i | 0 <= i < |name|
      ensures !IsSpace(name[i])
    {
      if i < |base| {
        assert name[i] == base[i];
      } else if i > |base| {
        assert name[i] == suffix[i - |base| - 1];
      }
    }
  }

  /** Every step keeps registered names unique and whitespace-free. */
  lemma StepKeepsValid(st: State, msg: string, suffix: string, peerWriteFails: bool)
    requires Valid(st)
    requires SuffixFits(st.users, msg, suffix)
    ensures Valid(Step(st, msg, suffix, peerWriteFails).next)
  {
    if msg == "" {
      TeardownKeepsValid(st.users, st.username);
    } else if StartsWith(msg, RegisterCommand) {
      var words := Words(msg);
      if |words| < 2 {
        TeardownKeepsValid(st.users, st.username);
      } else if words[1] in Names(st.users) {
        QualifiedIsWord(words[1], suffix);
        PutKeepsValid(st.users, Qualify(words[1], suffix), st.conn);
      } else {
        PutKeepsValid(st.users, words[1], st.conn);
      }
    } else if HasUsername(st.username) && !StartsWith(msg, WhoCommand) && StartsWith(msg, ExitCommand) {
      TeardownKeepsValid(st.users, st.username);
    }
  }

  /** Registering a free name and then hanging up leaves the registry as
      it was. */
  lemma RegisterThenHangup(users: Registry, conn: ConnId, username: string)
    requires IsWord(username) && username !in Names(users)
    ensures !RequestsTakenName(users, RegisterRequest(username))
    ensures var t := Step(State(users, conn, None), RegisterRequest(username), "", false);
      Step(t.next, "", "", false).next.users == users
  {
    ClientRegisters(State(users, conn, None), username, "", false);
    RemoveUndoesPut(users, username, conn);
  }

  /** Registering again binds a second name without releasing the first. */
  lemma RegisterTwice(users: Registry, conn: ConnId, first: string, second: string)
    requires IsWord(first) && IsWord(second) && first != second
    requires first !in Names(users) && second !in Names(users)
    ensures !RequestsTakenName(users, RegisterRequest(first))
    ensures var t1 := Step(State(users, conn, None), RegisterRequest(first), "", false);
      !RequestsTakenName(t1.next.users, RegisterRequest(second))
    ensures var t1 := Step(State(users, conn, None), RegisterRequest(first), "", false);
      var t2 := Step(t1.next, RegisterRequest(second), "", false);
      && t2.open
      && t2.next.username == Some(second)
      && Lookup(t2.next.users, first) == Some(conn)
      && Lookup(t2.next.users, second) == Some(conn)
  {
    var st0 := State(users, conn, None);
    ClientRegisters(st0, first, "", false);
    var t1 := Step(st0, RegisterRequest(first), "", false);
    assert Lookup(t1.next.users, second) == Lookup(users, second);
    ClientRegisters(t1.next, second, "", false);
  }

  /** After registering twice, the teardown of `server:exit` unbinds only
      the last name: the first stays bound to the closed connection. */
  lemma ReRegisterLeavesStaleBinding(users: Registry, conn: ConnId, first: string, second: string, bye: string)
    requires IsWord(first) && IsWord(second) && first != second
    requires first !in Names(users) && second !in Names(users)
    requires StartsWith(bye, ExitCommand) && !StartsWith(bye, WhoCommand)
    ensures !RequestsTakenName(users, RegisterRequest(first))
    ensures var t1 := Step(State(users, conn, None), RegisterRequest(first), "", false);
      !RequestsTakenName(t1.next.users, RegisterRequest(second))
    ensures !StartsWith(bye, RegisterCommand)
    ensures var t1 := Step(State(users, conn, None), RegisterRequest(first), "", false);
      var t2 := Step(t1.next, RegisterRequest(second), "", false);
      var t3 := Step(t2.next, bye, "", false);
      && !t3.open
      && Lookup(t3.next.users, first) == Some(conn)
      && Lookup(t3.next.users, second) == None
  {
    RegisterTwice(users, conn, first, second);
    var t1 := Step(State(users, conn, None), RegisterRequest(first), "", false);
    var t2 := Step(t1.next, RegisterRequest(second), "", false);
    ExitIsNotRegister(bye);
    ExitEndsSession(t2.next, bye, "", false);
  }
}
