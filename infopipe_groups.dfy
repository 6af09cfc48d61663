/**
 * The CreateGroups handler of the InfoPipe responder: request gating, the
 * copy of the name list, and the per-request context that drives one
 * sysdb_add_group call at a time from the store's callbacks.
 *
 * The store, the domain map and the permission engine are inputs: the store
 * is represented by the status codes it returns or passes to the callbacks,
 * the domain map by a `map`, the permission engine by a predicate.
 */
module InfopipeGroups {
  import opened GroupCreateSpec

  /** The identity of the caller on the bus, as the transport layer supplies it. */
  type Caller = string

  /** The outcome of unmarshalling the request's arguments (an array of group names and a domain name). */
  datatype ParsedArgs =
    | Parsed(groupnames: seq<string>, domain: string)
    | ParseError(message: string)

  /** strcasecmp in the C locale folds only the ASCII upper-case letters. */
  function LowerAscii(c: char): char
  {
    if 'A' <= c <= 'Z' then (c as int + 32) as char else c
  }

  /** strcasecmp(a, b) == 0 for strings without an embedded NUL. */
  predicate EqualsIgnoringCase(a: string, b: string)
  {
    |a| == |b| && forall i :: 0 <= i < |a| ==> LowerAscii(a[i]) == LowerAscii(b[i])
  }

  /** The only domain groups may be created on. */
  predicate IsLocalDomain(domain: string)
  {
    EqualsIgnoringCase(domain, "LOCAL")
  }

  /** The domain test accepts exactly the spellings of LOCAL that mix upper and lower case letter by letter. */
  lemma LocalDomainSpellings(domain: string)
    ensures IsLocalDomain(domain) <==>
            |domain| == 5 && forall i :: 0 <= i < 5 ==> domain[i] == "LOCAL"[i] || domain[i] == "local"[i]
  {
  }

  /** Every check of the request passed: the arguments parsed, the domain is LOCAL, it resolves,
      and the caller may create groups on it. */
  predicate Admitted(args: ParsedArgs, domainMap: map<string, Domain>,
                     mayCreateGroup: (Caller, Domain) -> bool, caller: Caller)
  {
    args.Parsed? && IsLocalDomain(args.domain) && args.domain in domainMap &&
    mayCreateGroup(caller, domainMap[args.domain])
  }

  /** Copies the requested names into a new array of exactly their number. */
  method CopyNames(names: seq<string>) returns (copy: array<string>)
    ensures fresh(copy)
    ensures copy.Length == |names| && copy[..] == names
  {
    copy := new string[|names|];
    var i := 0;
    while i < |names|
      invariant 0 <= i <= |names|
      invariant copy[..i] == names[..i]
    {
      copy[i] := names[i];
      i := i + 1;
    }
  }

  /** Where the context is: Ready to issue the creation of groupnames[index], waiting for the completion
      of that creation (InFlight), or Freed after the transaction was finished. */
  datatype Phase = Ready | InFlight | Freed

  /** The per-request context of a batch create. */
  class CreateGroupCtx {
    const domain: Domain              // the resolved domain of the request
    const groupnames: array<string>
    const nameCount: nat
    var index: nat                    // cursor: the name being created
    var sysdbReq: Option<nat>         // the transaction handle, once the store started it
    var phase: Phase
    var log: seq<Effect>              // what was done to the store and sent on the bus so far
    ghost var answers: seq<StoreAnswer>  // what the store answered so far, one entry per finished attempt

    ghost predicate Valid()
      reads this, groupnames
    {
      groupnames.Length == nameCount && index <= nameCount && WellFormed(answers) &&
      match phase
      case Ready => ReadyToIssue()
      case InFlight => CreationInFlight()
      case Freed => Finished()
    }

    /** No creation in flight: every name before the cursor was created, and the cursor is in range
        unless the list is empty. */
    ghost predicate ReadyToIssue()
      reads this, groupnames
      requires groupnames.Length == nameCount && index <= nameCount
    {
      (index < nameCount || index == 0) && |answers| == index && AllSucceeded(answers) &&
      log == AddGroups(domain, groupnames[..index])
    }

    /** The creation of groupnames[index] is in flight inside an open transaction, after every
        earlier name was created. */
    ghost predicate CreationInFlight()
      reads this, groupnames
      requires groupnames.Length == nameCount && index <= nameCount
    {
      index < nameCount && |answers| == index && AllSucceeded(answers) && sysdbReq.Some? &&
      log == AddGroups(domain, groupnames[..index + 1])
    }

    /** The transaction was finished: the cursor is at the first failure (or past the last name),
        and the log is the whole reference run for the store's answers. */
    ghost predicate Finished()
      reads this, groupnames
      requires groupnames.Length == nameCount && index <= nameCount
    {
      0 < nameCount && FirstFailure(answers, nameCount) == index &&
      |answers| == (if index < nameCount then index + 1 else nameCount) &&
      log == Replay(groupnames[..], domain, answers)
    }

    /** A context for the given domain and names, before the transaction has started. */
    constructor (domain: Domain, groupnames: array<string>)
      ensures Valid()
      ensures this.domain == domain && this.groupnames == groupnames && nameCount == groupnames.Length
      ensures index == 0 && phase == Ready && sysdbReq == None && log == [] && answers == []
    {
      this.domain := domain;
      this.groupnames := groupnames;
      nameCount := groupnames.Length;
      index := 0;
      sysdbReq := None;
      phase := Ready;
      log := [];
      answers := [];
    }

    /** In flight, the log is what the reference run gives for the answers so far. */
    lemma InFlightMatchesReplay()
      requires Valid() && phase == InFlight
      ensures log == Replay(groupnames[..], domain, answers)
    {
      RunPending(groupnames[..], domain, answers, 0);
      assert groupnames[..][0..index + 1] == groupnames[..index + 1];
    }

    /**
     * Issues the creation of groupnames[index] inside transaction `req`; `ret` is what
     * sysdb_add_group returns. A call that could not be issued finishes the transaction
     * with `ret`, sends no reply, and frees the context.
     */
    method DoGroupCreate(req: nat, ret: int)
      requires Valid() && phase == Ready && index < nameCount
      modifies this
      ensures Valid()
      ensures sysdbReq == Some(req) && index == old(index)
      ensures ret == EOK ==>
                phase == InFlight && answers == old(answers) &&
                log == old(log) + [AddGroup(domain, groupnames[index])]
      ensures ret != EOK ==>
                phase == Freed && answers == old(answers) + [InvokeFailed(ret)] &&
                log == old(log) + [AddGroup(domain, groupnames[index]), TransactionDone(ret)]
    {
      sysdbReq := Some(req);
      AddGroupsSnoc(domain, groupnames[..index], groupnames[index]);
      assert groupnames[..index] + [groupnames[index]] == groupnames[..index + 1];
      log := log + [AddGroup(domain, groupnames[index])];
      if ret != EOK {
        ReplayFailsNext(groupnames[..], domain, answers, InvokeFailed(ret));
        log := log + [TransactionDone(ret)];
        answers := answers + [InvokeFailed(ret)];
        phase := Freed;
        return;
      }
      phase := InFlight;
    }

    /**
     * The completion callback of the creation of groupnames[index], called by the store with
     * `status`. On success the cursor moves on by one and the next creation is issued
     * (`nextRet` is what sysdb_add_group returns for it), or, after the last name, the
     * transaction is committed and a success reply sent. On failure the transaction is
     * finished with `status`, a file-exists reply naming groupnames[index] is sent if the
     * status is EEXIST, and the context is freed.
     */
    method OnCompletion(status: int, nextRet: int)
      requires Valid() && phase == InFlight
      modifies this
      ensures Valid()
      ensures sysdbReq == old(sysdbReq)
      ensures status != EOK ==>
                phase == Freed && index == old(index) &&
                answers == old(answers) + [Completed(status)] &&
                log == old(log) + FailureEffects(Completed(status), domain, groupnames[index])
      ensures status == EOK ==> index == old(index) + 1
      ensures status == EOK && index < nameCount && nextRet == EOK ==>
                phase == InFlight && answers == old(answers) + [Completed(EOK)] &&
                log == old(log) + [AddGroup(domain, groupnames[index])]
      ensures status == EOK && index < nameCount && nextRet != EOK ==>
                phase == Freed && answers == old(answers) + [Completed(EOK), InvokeFailed(nextRet)] &&
                log == old(log) + [AddGroup(domain, groupnames[index]), TransactionDone(nextRet)]
      ensures status == EOK && index == nameCount ==>
                phase == Freed && answers == old(answers) + [Completed(EOK)] &&
                log == old(log) + CommitEffects
    {
      if status != EOK {
        log := log + [TransactionDone(status)];
        if status == EEXIST {
          log := log + [SendReply(FileExists(ExistsMessage(groupnames[index], domain.name)))];
        }
        assert log == old(log) + FailureEffects(Completed(status), domain, groupnames[index]);
        ReplayFailsNext(groupnames[..], domain, answers, Completed(status));
        answers := answers + [Completed(status)];
        phase := Freed;
        return;
      }

      if index + 1 == nameCount {
        ReplayCommitsLast(groupnames[..], domain, answers);
        assert groupnames[..index + 1] == groupnames[..];
      }
      assert WellFormed(answers + [Completed(EOK)]) && AllSucceeded(answers + [Completed(EOK)]);
      answers := answers + [Completed(EOK)];
      index := index + 1;
      if index < nameCount {
        phase := Ready;
        DoGroupCreate(sysdbReq.value, nextRet);
        return;
      }

      log := log + [TransactionDone(status), SendReply(MethodReturn)];
      assert log == AddGroups(domain, groupnames[..]) + CommitEffects;
      phase := Freed;
    }
  }

  /**
   * The CreateGroups request. The checks short-circuit in this order, each ending the request
   * with a reply and without touching the store: the arguments must parse, the domain must be
   * LOCAL (case-insensitively), it must resolve in the domain map, and the caller must be
   * allowed to create groups on it. Then the names are copied into a new context and a
   * transaction is requested; `transactionRet` is what the store returns for that request.
   * If it fails, the context is dropped and no reply is sent.
   */
  method GroupsCreate(args: ParsedArgs, domainMap: map<string, Domain>,
                      mayCreateGroup: (Caller, Domain) -> bool, caller: Caller, transactionRet: int)
    returns (ret: int, reply: Option<Reply>, transactionRequested: bool, ctx: CreateGroupCtx?)
    ensures transactionRequested <==> Admitted(args, domainMap, mayCreateGroup, caller)
    ensures args.ParseError? ==> reply == Some(InvalidArgs(args.message))
    ensures args.Parsed? && !IsLocalDomain(args.domain) ==> reply == Some(AccessDenied)
    ensures args.Parsed? && IsLocalDomain(args.domain) && args.domain !in domainMap ==>
              reply == Some(InvalidArgs("Invalid domain."))
    ensures args.Parsed? && IsLocalDomain(args.domain) && args.domain in domainMap &&
            !mayCreateGroup(caller, domainMap[args.domain]) ==>
              reply == Some(AccessDenied)
    ensures !transactionRequested ==> ret == EOK && ctx == null
    ensures transactionRequested ==>
              reply == None && ret == transactionRet && (ctx != null <==> transactionRet == EOK)
    ensures ctx != null ==>
              fresh(ctx) && fresh(ctx.groupnames) && ctx.Valid() && ctx.domain == domainMap[args.domain] &&
              ctx.groupnames[..] == args.groupnames && ctx.nameCount == |args.groupnames| &&
              ctx.index == 0 && ctx.phase == Ready && ctx.sysdbReq == None && ctx.log == []
  {
    transactionRequested := false;
    ctx := null;
    ret := EOK;
    if args.ParseError? {
      reply := Some(InvalidArgs(args.message));
      return;
    }
    if !IsLocalDomain(args.domain) {
      reply := Some(AccessDenied);
      return;
    }
    if args.domain !in domainMap {
      reply := Some(InvalidArgs("Invalid domain."));
      return;
    }
    var domain := domainMap[args.domain];
    if !mayCreateGroup(caller, domain) {
      reply := Some(AccessDenied);
      return;
    }

    reply := None;
    var groupnames := CopyNames(args.groupnames);
    var c := new CreateGroupCtx(domain, groupnames);
    transactionRequested := true;
    ret := transactionRet;
    if ret == EOK {
      ctx := c;
    }
  }

  /** A three-name batch whose second name already exists: the third name is never sent to the store. */
  method ConflictStopsTheBatch(domainMap: map<string, Domain>)
    requires "LOCAL" in domainMap
  {
    var args := Parsed(["a", "b", "c"], "LOCAL");
    var ret, reply, requested, ctx := GroupsCreate(args, domainMap, (_, _) => true, "admin", EOK);
    assert IsLocalDomain("LOCAL");
    assert ret == EOK && reply == None && ctx != null;
    var d := ctx.domain;
    ctx.DoGroupCreate(1, EOK);
    ctx.OnCompletion(EOK, EOK);
    ctx.OnCompletion(EEXIST, EOK);
    assert ctx.phase == Freed && ctx.index == 1;
    assert ctx.log == [AddGroup(d, "a"), AddGroup(d, "b"), TransactionDone(EEXIST),
                       SendReply(FileExists(ExistsMessage("b", d.name)))];
  }
}
