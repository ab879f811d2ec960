/** The text protocol between `client.py` and `server.py`: the commands a
    client sends, the replies the server writes, and how each side builds
    and reads them. */
module Protocol {

  import opened Wrappers
  import opened Text

  const RegisterCommand := "server:register"
  const WhoCommand := "server:who"
  const ExitCommand := "server:exit"

  const NotRegisteredError := "ERROR:You must register a username first."
  const InvalidFormatError := "ERROR:Invalid message format."
  const SendFailedError := "ERROR:Failed to send message."
  const RecipientNotFoundError := "ERROR:Recipient not found."
  const Goodbye := "Goodbye!"

  const WhoPrefix := "Active users: "
  const ListSeparator := ", "

  /** Reply to a registration whose name was free. */
  function Welcome(name: string): string
  {
    "Welcome " + name + "!"
  }

  /** Reply to a registration whose name was taken. */
  function TakenNotice(name: string): string
  {
    "Username taken. You are registered as " + name
  }

  /** Reply to `server:who`. */
  function WhoReply(names: seq<string>): string
  {
    WhoPrefix + Join(names, ListSeparator)
  }

  /** What the recipient of a directed message receives. */
  function Forward(sender: string, body: string): string
  {
    sender + ": " + body
  }

  /** The client's registration request for the name typed at its prompt. */
  function RegisterRequest(username: string): string
  {
    RegisterCommand + " " + username
  }

  /** The client's directed message. */
  function DirectRequest(recipient: string, message: string): string
  {
    recipient + ":" + message
  }

  /** The inverse of `WhoReply`. No code in the chat program parses this
      reply (the client prints it as is); it is defined here only to show
      that the reply determines the list of names. */
  function ParseWhoReply(reply: string): Option<seq<string>>
  {
    if StartsWith(reply, WhoPrefix) then
      var list := reply[|WhoPrefix|..];
      Some(if list == [] then [] else SplitList(list))
    else None
  }

  // ---------------------------------------------------------------------
  // Round trips

  /** The `who` reply lists exactly the given names, in order, and can be
      read back unambiguously because no name contains whitespace. */
  lemma WhoReplyRoundTrip(names: seq<string>)
    requires forall i :: 0 <= i < |names| ==> IsWord(names[i])
    ensures ParseWhoReply(WhoReply(names)) == Some(names)
  {
    var reply := WhoReply(names);
    assert reply[..|WhoPrefix|] == WhoPrefix;
    assert reply[|WhoPrefix|..] == Join(names, ListSeparator);
    if |names| > 0 {
      forall i | 0 <= i < |names|
        ensures ' ' !in names[i]
      {
        assert IsSpace(' ');
      }
      SplitListOfJoin(names);
      assert Join(names, ListSeparator) != [] by {
        if |names| == 1 {
        } else {
          assert |Join(names, ListSeparator)| >= |names[0]|;
        }
      }
    }
  }

  /** The server cuts a directed message at its first `:`, which gives
      back the client's recipient and text whenever the recipient has no
      `:` of its own. */
  lemma DirectRequestRoundTrip(recipient: string, message: string)
    requires ':' !in recipient
    ensures ':' in DirectRequest(recipient, message)
    ensures SplitAtFirst(DirectRequest(recipient, message), ':') == (recipient, message)
  {
    var s := DirectRequest(recipient, message);
    assert s == recipient + [':'] + message;
    assert s[|recipient|] == ':';
    SplitAtFirstOfJoined(recipient, ':', message);
  }

  /** The server's whitespace split of a registration request yields the
      command followed by the words of the typed name. */
  lemma RegisterRequestWords(username: string)
    ensures StartsWith(RegisterRequest(username), RegisterCommand)
    ensures Words(RegisterRequest(username)) == [RegisterCommand] + Words(username)
  {
    var s := RegisterRequest(username);
    assert s[..|RegisterCommand|] == RegisterCommand;
    assert IsWord(RegisterCommand);
    assert s == RegisterCommand + (" " + username);
    WordsOfWordThen(RegisterCommand, " " + username);
    assert (" " + username)[1..] == username;
  }

  /** A single word is its own whitespace split. */
  lemma WordsOfWord(w: string)
    requires IsWord(w)
    ensures Words(w) == [w]
  {
    WordsOfWordThen(w, []);
    assert w + [] == w;
  }

  /** A directed message to a recipient whose name has no `:` and is not
      `server` never looks like a `server:` command. */
  lemma DirectRequestIsNotCommand(recipient: string, message: string, command: string)
    requires ':' !in recipient
    requires recipient != "server"
    requires StartsWith(command, "server:")
    ensures !StartsWith(DirectRequest(recipient, message), command)
  {
    var s := DirectRequest(recipient, message);
    var p := "server:";
    if |s| >= 7 {
      if |recipient| < 6 {
        assert s[..7][|recipient|] != p[|recipient|];
      } else if |recipient| == 6 {
        assert s[..7][..6] == recipient;
      } else {
        assert s[..7][6] == recipient[6];
      }
      assert s[..7] != p;
    }
  }

  /** The three `server:` commands are told apart by their eighth
      character, so an exit request is never taken for a registration. */
  lemma ExitIsNotRegister(msg: string)
    requires StartsWith(msg, ExitCommand)
    ensures !StartsWith(msg, RegisterCommand)
  {
    assert msg[7] == ExitCommand[7];
    if |msg| >= |RegisterCommand| {
      assert msg[..|RegisterCommand|][7] != RegisterCommand[7];
    }
  }
}
