/**
 A source of data that is fetched once, web/js/net/source.js. A callback may register
 more callbacks while it runs, so a callback is the registrations it makes when called.
 */
module DataSources {
  import opened Sequences

  /** One call of getData; either callback may be absent. */
  datatype Registration = Registration(caller: nat, success: Option<Callback>, error: Option<Callback>)

  datatype Callback = Callback(registers: seq<Registration>)

  /** A callback as it is kept until the data arrives. */
  datatype Handler = Handler(caller: nat, callback: Option<Callback>)

  datatype Call<A> = Call(caller: nat, succeeded: bool, args: A)

  function HandlerOf(r: Registration, succeeded: bool): Handler {
    Handler(r.caller, if succeeded then r.success else r.error)
  }

  function HandlersOf(rs: seq<Registration>, succeeded: bool): seq<Handler> {
    seq(|rs|, i requires 0 <= i < |rs| => HandlerOf(rs[i], succeeded))
  }

  // ---------- What callers are promised ----------

  /** Every registration that comes to be made, in order: a called callback makes its own before the next is called. */
  function Made(r: Registration, succeeded: bool): seq<Registration>
    decreases r, 1
  {
    [r] + match HandlerOf(r, succeeded).callback
          case None => []
          case Some(callback) => AllMade(callback.registers, succeeded)
  }

  function AllMade(rs: seq<Registration>, succeeded: bool): seq<Registration>
    decreases rs, 0
  {
    if rs == [] then [] else Made(rs[0], succeeded) + AllMade(rs[1..], succeeded)
  }

  /** One call for each registration that has a callback on the side of the outcome. */
  function CallEach<A>(rs: seq<Registration>, succeeded: bool, args: A): seq<Call<A>> {
    if rs == [] then [] else CallOne(rs[0], succeeded, args) + CallEach(rs[1..], succeeded, args)
  }

  function CallOne<A>(r: Registration, succeeded: bool, args: A): seq<Call<A>> {
    if HandlerOf(r, succeeded).callback.Some? then [Call(r.caller, succeeded, args)] else []
  }

  lemma Associative<X>(a: seq<X>, b: seq<X>, c: seq<X>)
    ensures a + (b + c) == a + b + c
  {
  }

  lemma {:induction false} CallEachConcat<A>(rs: seq<Registration>, more: seq<Registration>, succeeded: bool, args: A)
    ensures CallEach(rs + more, succeeded, args) == CallEach(rs, succeeded, args) + CallEach(more, succeeded, args)
  {
    if rs == [] {
      assert rs + more == more;
    } else {
      CallEachConcat(rs[1..], more, succeeded, args);
      assert (rs + more)[1..] == rs[1..] + more;
      Associative(CallOne(rs[0], succeeded, args), CallEach(rs[1..], succeeded, args), CallEach(more, succeeded, args));
    }
  }

  lemma {:induction false} AllMadeAppend(rs: seq<Registration>, r: Registration, succeeded: bool)
    ensures AllMade(rs + [r], succeeded) == AllMade(rs, succeeded) + Made(r, succeeded)
  {
    if rs == [] {
      assert rs + [r] == [r];
      assert AllMade([r][1..], succeeded) == [];
    } else {
      assert (rs + [r])[1..] == rs[1..] + [r];
      AllMadeAppend(rs[1..], r, succeeded);
    }
  }

  /** The calls that registrations lead to, their callbacks' registrations included. */
  function Promised<A>(rs: seq<Registration>, succeeded: bool, args: A): seq<Call<A>> {
    CallEach(AllMade(rs, succeeded), succeeded, args)
  }

  lemma PromisedAppend<A>(rs: seq<Registration>, r: Registration, succeeded: bool, args: A)
    ensures Promised(rs + [r], succeeded, args)
              == Promised(rs, succeeded, args) + CallEach(Made(r, succeeded), succeeded, args)
  {
    AllMadeAppend(rs, r, succeeded);
    CallEachConcat(AllMade(rs, succeeded), Made(r, succeeded), succeeded, args);
  }

  lemma PromisedOne<A>(r: Registration, succeeded: bool, args: A)
    ensures CallEach(Made(r, succeeded), succeeded, args)
         == match HandlerOf(r, succeeded).callback
            case None => []
            case Some(callback) => [Call(r.caller, succeeded, args)] + Promised(callback.registers, succeeded, args)
  {
    var rest := match HandlerOf(r, succeeded).callback case None => []
      case Some(callback) => AllMade(callback.registers, succeeded);
    assert Made(r, succeeded) == [r] + rest;
    assert ([r] + rest)[1..] == rest;
  }

  predicate DistinctCallers(rs: seq<Registration>) {
    forall i, j :: 0 <= i < j < |rs| ==> rs[i].caller != rs[j].caller
  }

  function CallsTo<A>(calls: seq<Call<A>>, caller: nat): seq<Call<A>> {
    if calls == [] then []
    else (if calls[0].caller == caller then [calls[0]] else []) + CallsTo(calls[1..], caller)
  }

  predicate GaveCallback(rs: seq<Registration>, succeeded: bool, caller: nat) {
    exists i ::
      && 0 <= i < |rs| && rs[i].caller == caller
      && (if succeeded then rs[i].success.Some? else rs[i].error.Some?)
  }

  /**
   A caller hears exactly once, on the side of the outcome and with its arguments, if it gave a callback for that
   side.
   */
  lemma {:induction false} EachCallerOnce<A>(rs: seq<Registration>, succeeded: bool, args: A, caller: nat)
    requires DistinctCallers(rs)
    ensures CallsTo(CallEach(rs, succeeded, args), caller)
         == if GaveCallback(rs, succeeded, caller) then [Call(caller, succeeded, args)] else []
  {
    if rs != [] {
      var rest, tail := rs[1..], CallEach(rs[1..], succeeded, args);
      EachCallerOnce(rest, succeeded, args, caller);
      GaveCallbackFirst(rs, succeeded, caller);
      CallsToFirst(rs[0], tail, succeeded, args, caller);
      assert rs[0].caller == caller ==> !GaveCallback(rest, succeeded, caller);
    }
  }

  lemma CallsToFirst<A>(r: Registration, tail: seq<Call<A>>, succeeded: bool, args: A, caller: nat)
    ensures CallsTo(CallOne(r, succeeded, args) + tail, caller)
         == if r.caller == caller && HandlerOf(r, succeeded).callback.Some?
            then [Call(caller, succeeded, args)] + CallsTo(tail, caller) else CallsTo(tail, caller)
  {
    var one := CallOne(r, succeeded, args);
    if one == [] {
      assert one + tail == tail;
    } else {
      assert (one + tail)[1..] == tail;
    }
  }

  lemma GaveCallbackFirst(rs: seq<Registration>, succeeded: bool, caller: nat)
    requires rs != []
    ensures GaveCallback(rs, succeeded, caller)
       <==> (rs[0].caller == caller && HandlerOf(rs[0], succeeded).callback.Some?)
            || GaveCallback(rs[1..], succeeded, caller)
  {
    assert forall i :: 0 <= i < |rs| - 1 ==> rs[1..][i] == rs[i + 1];
    if GaveCallback(rs, succeeded, caller) {
      var i :|
        && 0 <= i < |rs| && rs[i].caller == caller
        && (if succeeded then rs[i].success.Some? else rs[i].error.Some?);
      assert i > 0 ==> rs[1..][i - 1] == rs[i];
    }
  }

  // ---------- The object ----------

  class DataSource<A> {
    var hasData: bool
    var didSucceed: bool
    var responseArgs: Option<A>
    var successCallbacks: seq<Handler>
    var errorCallbacks: seq<Handler>
    var populated: bool            // `_.once` has let _doPopulateData through
    ghost var fetches: nat         // calls of _fetchData
    ghost var calls: seq<Call<A>>  // the callbacks called, in order

    /** The source has been asked by `registered`, from outside, and by whatever their callbacks registered. */
    ghost predicate Serves(registered: seq<Registration>)
      reads this
    {
      && fetches == (if populated then 1 else 0)
      && (hasData ==> responseArgs.Some? && calls == Promised(registered, didSucceed, responseArgs.value))
      && (!hasData ==>
            && calls == [] && (populated <==> registered != [])
            && successCallbacks == HandlersOf(registered, true)
            && errorCallbacks == HandlersOf(registered, false))
    }

    /**
     Once the data is there, every caller who registered, from outside or from a callback, has heard exactly once
     or had nothing to hear with.
     */
    lemma EveryCallerHeardOnce(registered: seq<Registration>, caller: nat)
      requires Serves(registered) && hasData && DistinctCallers(AllMade(registered, didSucceed))
      ensures CallsTo(calls, caller)
           == if GaveCallback(AllMade(registered, didSucceed), didSucceed, caller)
              then [Call(caller, didSucceed, responseArgs.value)] else []
    {
      EachCallerOnce(AllMade(registered, didSucceed), didSucceed, responseArgs.value, caller);
    }

    constructor ()
      ensures Serves([]) && !hasData && fetches == 0
    {
      hasData, didSucceed, responseArgs := false, false, None;
      successCallbacks, errorCallbacks, populated := [], [], false;
      fetches, calls := 0, [];
    }

    /** The source whose data is there from the start. */
    constructor Available(args: A)
      ensures Serves([]) && hasData && didSucceed && responseArgs == Some(args) && fetches == 0
    {
      hasData, didSucceed, responseArgs := true, true, Some(args);
      successCallbacks, errorCallbacks, populated := [], [], false;
      fetches, calls := 0, [];
    }

    method GetData(r: Registration)
      requires hasData ==> responseArgs.Some?
      modifies this
      ensures hasData == old(hasData) && didSucceed == old(didSucceed) && responseArgs == old(responseArgs)
      ensures hasData ==>
                && calls == old(calls) + CallEach(Made(r, didSucceed), didSucceed, responseArgs.value)
                && populated == old(populated) && fetches == old(fetches)
      ensures forall registered :: old(Serves(registered)) ==> Serves(registered + [r])
      decreases r, 1
    {
      if hasData {
        Invoke(if didSucceed then Handler(r.caller, r.success) else Handler(r.caller, r.error), r);
      } else {
        successCallbacks := successCallbacks + [Handler(r.caller, r.success)];
        errorCallbacks := errorCallbacks + [Handler(r.caller, r.error)];
        if !populated {
          populated := true;
          fetches := fetches + 1;
        }
      }
      forall registered | old(Serves(registered)) ensures Serves(registered + [r]) {
        if hasData {
          PromisedAppend(registered, r, didSucceed, responseArgs.value);
        }
      }
    }

    /** Calls a handler, if there is a callback in it, which registers what it registers at once. */
    method Invoke(h: Handler, ghost r: Registration)
      requires hasData && responseArgs.Some? && h == HandlerOf(r, didSucceed)
      modifies this
      ensures hasData && didSucceed == old(didSucceed) && responseArgs == old(responseArgs)
      ensures populated == old(populated) && fetches == old(fetches)
      ensures calls == old(calls) + CallEach(Made(r, didSucceed), didSucceed, responseArgs.value)
      decreases r, 0
    {
      PromisedOne(r, didSucceed, responseArgs.value);
      if h.callback.Some? {
        var registers := h.callback.value.registers;
        calls := calls + [Call(h.caller, didSucceed, responseArgs.value)];
        ghost var before := calls;
        for i := 0 to |registers|
          invariant hasData && didSucceed == old(didSucceed) && responseArgs == old(responseArgs)
          invariant populated == old(populated) && fetches == old(fetches)
          invariant calls == before + Promised(registers[..i], didSucceed, responseArgs.value)
        {
          assert registers[..i + 1] == registers[..i] + [registers[i]];
          PromisedAppend(registers[..i], registers[i], didSucceed, responseArgs.value);
          ghost var promised := Promised(registers[..i], didSucceed, responseArgs.value);
          Associative(before, promised, CallEach(Made(registers[i], didSucceed), didSucceed, responseArgs.value));
          GetData(registers[i]);
        }
        assert registers[..|registers|] == registers;
        Associative(old(calls), [Call(h.caller, didSucceed, responseArgs.value)],
          Promised(registers, didSucceed, responseArgs.value));
      }
    }

    /** The fetch calls back. */
    method Respond(succeeded: bool, args: A, ghost registered: seq<Registration>)
      requires Serves(registered) && populated && !hasData
      modifies this
      ensures Serves(registered) && hasData && didSucceed == succeeded && responseArgs == Some(args)
    {
      hasData, didSucceed, responseArgs := true, succeeded, Some(args);
      var callbacks := if succeeded then successCallbacks else errorCallbacks;
      for i := 0 to |callbacks|
        invariant hasData && didSucceed == succeeded && responseArgs == Some(args)
        invariant populated == old(populated) && fetches == old(fetches)
        invariant calls == Promised(registered[..i], succeeded, args)
      {
        assert registered[..i + 1] == registered[..i] + [registered[i]];
        PromisedAppend(registered[..i], registered[i], succeeded, args);
        Invoke(callbacks[i], registered[i]);
      }
      assert registered[..|callbacks|] == registered;
    }
  }
}
