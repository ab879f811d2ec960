/** The whole life of one `handle_client` thread: receive chunks until the
    peer hangs up, says `server:exit`, or sends a registration without a
    name, then tear down. The thread is looked at on its own, as if no
    other session acted in between (each step is atomic). */
module Session {

  import opened Wrappers
  import opened Text
  import opened Users
  import opened Usernames
  import opened Protocol
  import opened Server

  /** One received chunk, with whether a forward made while handling it
      would fail to write to the recipient's socket. */
  datatype Incoming = Incoming(text: string, peerWriteFails: bool)

  /** Every binding of another connection is the same in `before` and `after`. */
  ghost predicate OthersUnchanged(before: Registry, after: Registry, conn: ConnId)
  {
    forall n ::
      (Lookup(before, n).Some? && Lookup(before, n).value != conn) ||
      (Lookup(after, n).Some? && Lookup(after, n).value != conn)
      ==> Lookup(after, n) == Lookup(before, n)
  }

  /** The session's name, once it has one, is bound to its own socket. */
  predicate OwnsUsername(st: State)
  {
    st.username.Some? ==> Lookup(st.users, st.username.value) == Some(st.conn)
  }

  /** A socket one session may write to: its own, or one that owned a
      name when the session started. */
  predicate ReachableFrom(users: Registry, conn: ConnId, to: ConnId)
  {
    to == conn || exists n | n in Names(users) :: Lookup(users, n) == Some(to)
  }

  lemma TeardownOwnName(start: Registry, st: State)
    requires OwnsUsername(st)
    requires OthersUnchanged(start, st.users, st.conn)
    ensures OthersUnchanged(start, Teardown(st.users, st.username), st.conn)
  {
  }

  lemma BindFreshName(start: Registry, st: State, name: string)
    requires name !in Names(st.users)
    requires OthersUnchanged(start, st.users, st.conn)
    ensures OthersUnchanged(start, Put(st.users, name, st.conn), st.conn)
  {
    var r := Put(st.users, name, st.conn);
    assert Lookup(st.users, name) == None;
  }

  /** One step of a session keeps its own name bound to its socket, never
      touches another connection's binding, writes only to sockets known
      at the start, and on closing leaves its name unbound. */
  lemma StepStaysInLane(start: Registry, st: State, msg: string, suffix: string, peerWriteFails: bool)
    requires OwnsUsername(st)
    requires OthersUnchanged(start, st.users, st.conn)
    requires SuffixFits(st.users, msg, suffix)
    ensures var t := Step(st, msg, suffix, peerWriteFails);
      && OthersUnchanged(start, t.next.users, st.conn)
      && (t.open ==> OwnsUsername(t.next))
      && (!t.open ==> t.next.username.None? || t.next.username.value !in Names(t.next.users))
      && forall k :: 0 <= k < |t.outputs| ==> ReachableFrom(start, st.conn, t.outputs[k].to)
  {
    var t := Step(st, msg, suffix, peerWriteFails);
    if msg == "" || (StartsWith(msg, RegisterCommand) && |Words(msg)| < 2)
       || (Dispatched(st, msg) && !StartsWith(msg, WhoCommand) && StartsWith(msg, ExitCommand)) {
      TeardownOwnName(start, st);
    } else if StartsWith(msg, RegisterCommand) {
      var base := Words(msg)[1];
      var name := if base in Names(st.users) then Qualify(base, suffix) else base;
      BindFreshName(start, st, name);
    }
    forall k | 0 <= k < |t.outputs|
      ensures ReachableFrom(start, st.conn, t.outputs[k].to)
    {
      var to := t.outputs[k].to;
      if to != st.conn {
        assert Addressable(st, to);
        var n :| n in Names(st.users) && Lookup(st.users, n) == Some(to);
        assert Lookup(start, n) == Some(to);
      }
    }
  }

  /** `handle_client` over the chunks `inbox`, starting unregistered. It
      stops early when the session closes; otherwise it has consumed every
      chunk and is waiting for more. The random suffix search is guaranteed
      to find a free name by `FreeSuffixExists` while fewer than 62^4 names
      exist. */
  method HandleClient(users: Registry, conn: ConnId, inbox: seq<Incoming>)
    returns (final: State, outputs: seq<Outgoing>, open: bool, consumed: nat)
    requires ValidUsers(users)
    requires |users| + |inbox| < Capacity
    ensures final.conn == conn && Valid(final)
    ensures consumed <= |inbox| && |outputs| <= consumed
    ensures open ==> consumed == |inbox|
    ensures !open ==> final.username.None? || final.username.value !in Names(final.users)
    ensures OthersUnchanged(users, final.users, conn)
    ensures forall k :: 0 <= k < |outputs| ==> ReachableFrom(users, conn, outputs[k].to)
  {
    var st := State(users, conn, None);
    outputs := [];
    open := true;
    consumed := 0;
    while consumed < |inbox| && open
      invariant consumed <= |inbox|
      invariant st.conn == conn && Valid(st)
      invariant |st.users| <= |users| + consumed
      invariant |outputs| <= consumed
      invariant OthersUnchanged(users, st.users, conn)
      invariant open ==> OwnsUsername(st)
      invariant !open ==> st.username.None? || st.username.value !in Names(st.users)
      invariant forall k :: 0 <= k < |outputs| ==> ReachableFrom(users, conn, outputs[k].to)
    {
      var chunk := inbox[consumed];
      var suffix := "";
      if RequestsTakenName(st.users, chunk.text) {
        var name;
        suffix, name := GenerateUniqueUsername(Words(chunk.text)[1], st.users);
      }
      var t := Step(st, chunk.text, suffix, chunk.peerWriteFails);
      StepKeepsValid(st, chunk.text, suffix, chunk.peerWriteFails);
      StepStaysInLane(users, st, chunk.text, suffix, chunk.peerWriteFails);
      st, outputs, open, consumed := t.next, outputs + t.outputs, t.open, consumed + 1;
    }
    final := st;
  }
}
