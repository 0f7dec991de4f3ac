/** Each frame is recorded with the right account's storage layout, or exactly when not. */
module FrameAccounts {
  import opened Basics
  import opened StructLog
  import opened FrameRecorder
  import opened FrameTheorems
  import opened ContractRegistry

  /** A frame as the EVM runs it: whose code, on whose storage, entered by which opcode. */
  datatype Account = Account(code: Address, storage: Address, via: byte)

  /** What CALL, STATICCALL, DELEGATECALL and CALLCODE do to the execution context. */
  function Entered(caller: Account, log: Log): Account {
    var target := Callee(log);
    var op := if log.op.Some? then log.op.value else 0;
    Account(target, if op == OP_DELEGATECALL || op == OP_CALLCODE then caller.storage else target, op)
  }

  function Accounts(config: Config, logs: seq<Log>, i: nat): (r: seq<Account>)
    requires DepthTrace(logs) && i <= |logs|
    ensures |r| == (if i == 0 then 1 else logs[i - 1].depth)
  {
    if i == 0 then [Account(config.entry, config.entry, OP_CALL)]
    else
      var before, d := Accounts(config, logs, i - 1), logs[i - 1].depth;
      if d > |before| then before + [Entered(before[|before| - 1], logs[i - 2])] else before[..d]
  }

  /** Frames are entered by message calls only: no contract creation. */
  predicate OnlyMessageCalls(logs: seq<Log>) {
    forall i :: 0 < i < |logs| ==> EntersByCall(logs, i)
  }

  predicate EntersByCall(logs: seq<Log>, i: nat)
    requires 0 < i < |logs|
  {
    logs[i].depth > logs[i - 1].depth ==>
      logs[i - 1].op.Some? && logs[i - 1].op.value in MESSAGE_CALLS
  }

  /** The account whose layout the recorder uses. */
  function LayoutAccount(frame: FrameContext): Address {
    if frame.isDelegate && frame.delegateProxy.Some? then frame.delegateProxy.value else frame.address
  }

  /** The condition on how a frame was entered: a delegate frame's caller runs its own code, and a
      CALLCODE targets the account whose storage it keeps. */
  predicate EntryIsTracked(accounts: seq<Account>, e: nat)
    requires e < |accounts|
  {
    && (e > 0 && accounts[e].via == OP_DELEGATECALL ==> accounts[e - 1].code == accounts[e - 1].storage)
    && (e > 0 && accounts[e].via == OP_CALLCODE ==> accounts[e].code == accounts[e - 1].storage)
  }

  /** A recorded frame against the true one: same code; the layout account is the storage account
      exactly under the entry condition. */
  predicate FrameMatches(frame: FrameContext, accounts: seq<Account>, e: nat)
    requires e < |accounts|
  {
    && frame.address == accounts[e].code
    && (frame.isDelegate <==> accounts[e].via == OP_DELEGATECALL)
    && (frame.isDelegate ==> e > 0 && frame.delegateProxy == Some(accounts[e - 1].code))
    && (e > 0 && accounts[e].via in {OP_DELEGATECALL, OP_CALLCODE} ==> accounts[e].storage == accounts[e - 1].storage)
    && (accounts[e].via !in {OP_DELEGATECALL, OP_CALLCODE} ==> accounts[e].storage == accounts[e].code)
    && (e == 0 ==> accounts[e].via == OP_CALL)
  }

  /** Every recorded frame against the true ones. */
  predicate AllMatch(frames: seq<FrameContext>, accounts: seq<Account>) {
    |frames| == |accounts| && forall e :: 0 <= e < |accounts| ==> FrameMatches(frames[e], accounts, e)
  }

  lemma OuterMatch(frames: seq<FrameContext>, accounts: seq<Account>, d: nat)
    requires AllMatch(frames, accounts) && d <= |accounts|
    ensures AllMatch(frames[..d], accounts[..d])
  {
    forall e | 0 <= e < d ensures FrameMatches(frames[..d][e], accounts[..d], e) {
      assert FrameMatches(frames[e], accounts, e);
    }
  }

  lemma EntryMatches(frames: seq<FrameContext>, accounts: seq<Account>, prev: Log)
    requires AllMatch(frames, accounts) && accounts != []
    requires prev.op.Some? && prev.op.value in MESSAGE_CALLS
    ensures AllMatch(frames + [Entry(Some(prev), frames).0], accounts + [Entered(accounts[|accounts| - 1], prev)])
  {
    var n := |accounts|;
    var more, frame := accounts + [Entered(accounts[n - 1], prev)], Entry(Some(prev), frames).0;
    assert FrameMatches(frames[n - 1], accounts, n - 1);
    forall e | 0 <= e <= n ensures FrameMatches((frames + [frame])[e], more, e) {
      if e < n {
        assert FrameMatches(frames[e], accounts, e);
      }
    }
  }

  lemma {:induction false} FramesMatchAccounts(config: Config, logs: seq<Log>, states: seq<State>, i: nat)
    requires DepthTrace(logs) && OnlyMessageCalls(logs) && IsRun(config, logs, states) && i <= |logs|
    ensures AllMatch(states[i].frames, Accounts(config, logs, i))
  {
    if i == 0 {
    } else {
      var k, d := i - 1, logs[i - 1].depth;
      FramesMatchAccounts(config, logs, states, k);
      FramesStep(config, logs, states, k);
      var frames, before := states[k].frames, Accounts(config, logs, k);
      if d > |before| {
        assert EntersByCall(logs, k);
        EntryMatches(frames, before, logs[k - 1]);
      } else {
        OuterMatch(frames, before, d);
      }
    }
  }

  /** Storage context, for every trace of message calls and every open frame: the recorder's layout
      account is the account whose storage the frame writes exactly when the frame was entered in a
      way the recorder can track. */
  lemma {:induction false} LayoutAccountIff(config: Config, logs: seq<Log>, states: seq<State>, i: nat, e: nat)
    requires DepthTrace(logs) && OnlyMessageCalls(logs) && IsRun(config, logs, states)
    requires i <= |logs| && e < |Accounts(config, logs, i)|
    ensures e < |states[i].frames|
    ensures LayoutAccount(states[i].frames[e]) == Accounts(config, logs, i)[e].storage
            <==> EntryIsTracked(Accounts(config, logs, i), e)
  {
    FramesMatchAccounts(config, logs, states, i);
    assert FrameMatches(states[i].frames[e], Accounts(config, logs, i), e);
  }

  /** With every account registered, the layout in use is the layout account's. */
  lemma LayoutOfAccount(config: Config, frame: FrameContext)
    requires frame.address in config.registry.contracts
    requires frame.isDelegate ==> frame.delegateProxy.Some? && frame.delegateProxy.value in config.registry.contracts
    ensures FrameView(config, frame).layout == config.registry.contracts[LayoutAccount(frame)].layout
  {
  }

  /** With its account registered, a frame is recorded with that account's own code, delegate or not. */
  lemma CodeOfAccount(config: Config, frame: FrameContext)
    requires frame.address in config.registry.contracts && (frame.isDelegate ==> frame.delegateProxy.Some?)
    ensures FrameView(config, frame).site == config.registry.contracts[frame.address].site
  {
  }

  /** Without it, with the default contract's code, if that is registered; a delegate frame then has the layout of
      its caller's account or none, and any other frame falls back to the entry contract once more. */
  lemma CodeOfUnknown(config: Config, frame: FrameContext)
    requires frame.address !in config.registry.contracts && (frame.isDelegate ==> frame.delegateProxy.Some?)
    ensures var contracts, default := config.registry.contracts, config.registry.default;
            var view := FrameView(config, frame);
            if default.Some? && default.value in contracts then
              && view.site == contracts[default.value].site
              && view.layout == if !frame.isDelegate then contracts[default.value].layout
                 else if frame.delegateProxy.value in contracts then contracts[frame.delegateProxy.value].layout
                 else None
            else if !frame.isDelegate && config.entry in contracts then
              view == View(contracts[config.entry].layout, contracts[config.entry].site)
            else view == NOTHING
  {
  }

  /** In every recording of message calls the source facts of a step are those of the account whose code runs. */
  lemma RecordedCodeIsTrue(config: Config, logs: seq<Log>, states: seq<State>, i: nat)
    requires DepthTrace(logs) && OnlyMessageCalls(logs) && IsRun(config, logs, states) && i < |logs|
    requires Accounts(config, logs, i + 1)[logs[i].depth - 1].code in config.registry.contracts
    ensures states[i + 1].frames != []
    ensures SiteAt(config, logs, states[i + 1], i)
            == config.registry.contracts[Accounts(config, logs, i + 1)[logs[i].depth - 1].code].site(logs, i)
  {
    FramesMatchAccounts(config, logs, states, i + 1);
    var top, accounts := logs[i].depth - 1, Accounts(config, logs, i + 1);
    assert FrameMatches(states[i + 1].frames[top], accounts, top);
    CodeOfAccount(config, states[i + 1].frames[top]);
  }

  /** The intended statement: when no CALLCODE is open and no delegate frame delegates again, the
      recorded layout of the running frame is that of the account whose storage the EVM writes. */
  lemma {:induction false} RecordedLayoutIsTrue(config: Config, logs: seq<Log>, states: seq<State>, i: nat)
    requires DepthTrace(logs) && OnlyMessageCalls(logs) && IsRun(config, logs, states) && 0 < i <= |logs|
    requires forall a :: a in Accounts(config, logs, i) ==> a.code in config.registry.contracts && a.via != OP_CALLCODE
    requires var accounts := Accounts(config, logs, i);
             forall e :: 0 < e < |accounts| && accounts[e].via == OP_DELEGATECALL
               ==> accounts[e - 1].via != OP_DELEGATECALL
    ensures var top := logs[i - 1].depth - 1;
            && |states[i].frames| == top + 1
            && Accounts(config, logs, i)[top].storage in config.registry.contracts
            && FrameView(config, states[i].frames[top]).layout
               == config.registry.contracts[Accounts(config, logs, i)[top].storage].layout
  {
    FramesMatchAccounts(config, logs, states, i);
    var top, accounts := logs[i - 1].depth - 1, Accounts(config, logs, i);
    assert FrameMatches(states[i].frames[top], accounts, top) && accounts[top] in accounts;
    if top > 0 {
      assert FrameMatches(states[i].frames[top - 1], accounts, top - 1) && accounts[top - 1] in accounts;
    }
    LayoutAccountIff(config, logs, states, i, top);
    LayoutOfAccount(config, states[i].frames[top]);
  }

  lemma {:induction false} FirstAccounts(config: Config, logs: seq<Log>)
    requires DepthTrace(logs) && |logs| == 3 && logs[1].depth == 2 && logs[2].depth == 3
    ensures var outer := Account(config.entry, config.entry, OP_CALL);
            var middle := Entered(outer, logs[0]);
            Accounts(config, logs, 3) == [outer, middle, Entered(middle, logs[1])]
  {
    assert logs[0].depth == 1;
    assert Accounts(config, logs, 1) == [Account(config.entry, config.entry, OP_CALL)];
    assert |Accounts(config, logs, 2)| == 2;
  }

  /** Nested delegation falls short: a delegate frame that delegates again is recorded with the layout
      of the middle contract, although the outer contract's storage is written. */
  lemma {:induction false} NestedDelegationFallsShort(config: Config, logs: seq<Log>, states: seq<State>)
    requires |logs| == 3 && DepthTrace(logs) && logs[1].depth == 2 && logs[2].depth == 3 && IsRun(config, logs, states)
    requires logs[0].op == Some(OP_DELEGATECALL) && logs[1].op == Some(OP_DELEGATECALL)
    requires Callee(logs[0]) != config.entry
    ensures Accounts(config, logs, 3)[2].storage == config.entry
    ensures |states[3].frames| == 3 && LayoutAccount(states[3].frames[2]) == Callee(logs[0])
    ensures LayoutAccount(states[3].frames[2]) != Accounts(config, logs, 3)[2].storage
  {
    FirstAccounts(config, logs);
    FramesMatchAccounts(config, logs, states, 3);
    assert FrameMatches(states[3].frames[2], Accounts(config, logs, 3), 2);
  }
}
