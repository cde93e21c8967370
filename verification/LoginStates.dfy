/**
 Login states of the web server, web/js/session: a live state with a chain of saved parent states,
 deep-copied whenever it is saved, restored or rebuilt. The chain is a stack of frames.
 */
module LoginStates {
  import opened Sequences

  /** A field as JavaScript sees it. */
  datatype Field = Undefined | Null | Text(text: string) | Flag(flag: bool)

  predicate Truthy(f: Field) {
    match f
    case Text(t) => t != ""
    case Flag(b) => b
    case _ => false
  }

  /** What JavaScript takes for false, spelled out. */
  predicate IsFalsy(f: Field) {
    f == Undefined || f == Null || f == Text("") || f == Flag(false)
  }

  /** `a || b` */
  function Or(a: Field, b: Field): Field {
    if Truthy(a) then a else b
  }

  /** `parent && parent.field` of an optional object. */
  function FieldOf(present: bool, f: Field): Field {
    if present then f else Undefined
  }

  datatype Frame = Frame(apiToken: Field, clientId: Field, csrfToken: Field, isGuest: Field, organizationId: Field,
    userId: Field)

  datatype Session = Session(token: Field, hasClient: bool, client: Field, organization: Field, hasUser: bool,
    user: Field)

  datatype TokenType = Guest | ClientApi | ClientDev | User

  datatype Token = Token(token: Field, tokenType: TokenType, client: Field, organization: Field, user: Field)

  datatype Json = Json(frame: Frame, parentState: Option<Json>)

  // ---------- The stack ----------

  /** A stack of frames: the live one first. */
  type Chain = c: seq<Frame> | c != [] witness [Frame(Undefined, Undefined, Undefined, Undefined, Undefined, Undefined)]

  /** What a new object makes of a frame: a falsy CSRF token is not taken over, and there is none before it. */
  function Copied(f: Frame): Frame {
    f.(csrfToken := Or(f.csrfToken, Undefined))
  }

  predicate IsCopied(f: Frame) {
    Copied(f) == f
  }

  /** `pushParentState` */
  function Push(chain: Chain, preserveAsParentState: bool, currentStateIsGuest: bool): Chain {
    if preserveAsParentState && Truthy(chain[0].apiToken) && !currentStateIsGuest then [chain[0]] + chain else chain
  }

  /** `setFrom`: every key of the other state, but a falsy CSRF token leaves the current one. */
  function Merge(from: Frame, current: Frame): Frame {
    from.(csrfToken := Or(from.csrfToken, current.csrfToken))
  }

  function Pop(chain: Chain): Chain
    requires |chain| > 1
  {
    [Merge(chain[1], chain[0])] + chain[2..]
  }

  /** The live frame with another login. */
  function WithLogin(chain: Chain, apiToken: Field, clientId: Field, organizationId: Field, userId: Field): Chain {
    [chain[0].(apiToken := apiToken, clientId := clientId, organizationId := organizationId, userId := userId)]
      + chain[1..]
  }

  function WithSession(chain: Chain, session: Session): Chain {
    WithLogin(
      chain,
      session.token,
      FieldOf(session.hasClient, session.client),
      FieldOf(session.hasClient, session.organization),
      FieldOf(session.hasUser, session.user))
  }

  function WithToken(chain: Chain, token: Token): Chain {
    WithLogin(chain, token.token, token.client, token.organization, token.user)
  }

  predicate AllCopied(chain: Chain) {
    forall i :: 0 <= i < |chain| ==> IsCopied(chain[i])
  }

  predicate IsGuest(currentApiToken: Option<Token>) {
    currentApiToken.Some? && currentApiToken.value.tokenType == Guest
  }

  // ---------- The objects ----------

  class LoginState {
    var apiToken: Field
    var clientId: Field
    var csrfToken: Field
    var isGuest: Field
    var organizationId: Field
    var userId: Field
    var parentState: LoginState?
    ghost var Repr: set<object>

    ghost predicate Valid()
      reads this, Repr
      ensures Valid() ==> this in Repr
      decreases Repr
    {
      && this in Repr && IsCopied(FrameOf())
      && (parentState != null ==>
            && parentState in Repr && parentState.Repr <= Repr && this !in parentState.Repr
            && parentState.Valid())
    }

    function FrameOf(): Frame
      reads this
    {
      Frame(apiToken, clientId, csrfToken, isGuest, organizationId, userId)
    }

    ghost function ChainOf(): (chain: Chain)
      requires Valid()
      reads this, Repr
      ensures chain[0] == FrameOf() && AllCopied(chain)
      ensures parentState == null <==> |chain| == 1
      decreases Repr
    {
      if parentState == null then [FrameOf()] else [FrameOf()] + parentState.ChainOf()
    }

    /** A deep copy: no object of the original chain is part of the new one. */
    constructor (state: LoginState)
      requires state.Valid()
      ensures Valid() && fresh(Repr)
      ensures ChainOf() == state.ChainOf()
      decreases state.Repr
    {
      apiToken, clientId, isGuest := state.apiToken, state.clientId, state.isGuest;
      organizationId, userId := state.organizationId, state.userId;
      csrfToken := Or(state.csrfToken, Undefined);
      if state.parentState == null {
        parentState := null;
        Repr := {this};
      } else {
        var copy := new LoginState(state.parentState);
        parentState := copy;
        Repr := {this} + copy.Repr;
      }
    }

    method AssignKeys(from: Frame)
      modifies `apiToken, `clientId, `csrfToken, `isGuest, `organizationId, `userId
      ensures FrameOf() == Merge(from, old(FrameOf()))
      ensures IsRestored(FrameOf(), from, old(csrfToken))
    {
      apiToken, clientId, isGuest := from.apiToken, from.clientId, from.isGuest;
      organizationId, userId := from.organizationId, from.userId;
      csrfToken := Or(from.csrfToken, csrfToken);
    }

    method AdoptParent(parent: LoginState?)
      requires IsCopied(FrameOf()) && (parent != null ==> parent.Valid() && this !in parent.Repr)
      modifies `parentState, `Repr
      ensures Valid() && Repr == {this} + (if parent == null then {} else parent.Repr)
      ensures ChainOf() == [FrameOf()] + (if parent == null then [] else old(parent.ChainOf()))
    {
      parentState := parent;
      Repr := if parent == null then {this} else {this} + parent.Repr;
    }

    method SetFrom(state: LoginState)
      requires Valid() && state.Valid() && this !in state.Repr
      modifies this
      ensures Valid() && fresh(Repr - {this})
      ensures ChainOf() == [Merge(old(state.ChainOf())[0], old(FrameOf()))] + old(state.ChainOf())[1..]
    {
      var parent: LoginState? := null;
      if state.parentState != null {
        parent := new LoginState(state.parentState);
        assert parent.ChainOf() == state.ChainOf()[1..];
      }
      AssignKeys(state.FrameOf());
      AdoptParent(parent);
    }

    method PushParentState(preserveAsParentState: bool, currentStateIsGuest: bool)
      requires Valid()
      modifies this
      ensures Valid() && fresh(Repr - old(Repr))
      ensures ChainOf() == Push(old(ChainOf()), preserveAsParentState, currentStateIsGuest)
      ensures FrameOf() == old(FrameOf())
    {
      var currentStateIsLoggedIn := Truthy(apiToken);
      if preserveAsParentState && currentStateIsLoggedIn && !currentStateIsGuest {
        ghost var chain := ChainOf();
        var saved := new LoginState(this);
        parentState := saved;
        Repr := {this} + saved.Repr;
        assert ChainOf() == [chain[0]] + saved.ChainOf();
      }
    }

    /** The four fields that a session or a token replaces. */
    method AssignLogin(apiToken: Field, clientId: Field, organizationId: Field, userId: Field)
      requires Valid()
      modifies `apiToken, `clientId, `organizationId, `userId
      ensures Valid()
      ensures ChainOf() == WithLogin(old(ChainOf()), apiToken, clientId, organizationId, userId)
    {
      this.apiToken := apiToken;
      this.clientId := clientId;
      this.organizationId := organizationId;
      this.userId := userId;
    }

    method SetLoginStateFromSession(session: Session, preserveAsParentState: bool)
      requires Valid()
      modifies this
      ensures Valid() && fresh(Repr - old(Repr))
      ensures ChainOf() == WithSession(Push(old(ChainOf()), preserveAsParentState, false), session)
    {
      PushParentState(preserveAsParentState, false);
      AssignLogin(
        session.token,
        FieldOf(session.hasClient, session.client),
        FieldOf(session.hasClient, session.organization),
        FieldOf(session.hasUser, session.user));
    }

    method SetLoginStateFromToken(newApiToken: Token, currentApiToken: Option<Token>, preserveAsParentState: bool)
      requires Valid()
      modifies this
      ensures Valid() && fresh(Repr - old(Repr))
      ensures ChainOf() == WithToken(Push(old(ChainOf()), preserveAsParentState, IsGuest(currentApiToken)), newApiToken)
    {
      var isGuest := currentApiToken.Some? && currentApiToken.value.tokenType == Guest;
      PushParentState(preserveAsParentState, isGuest);
      AssignLogin(newApiToken.token, newApiToken.client, newApiToken.organization, newApiToken.user);
    }

    /** Ends the current session; without a saved state the read of its keys throws and nothing has changed. */
    method PopLoginState() returns (ok: bool, requestorToken: Field)
      requires Valid()
      modifies this
      ensures ok <==> |old(ChainOf())| > 1
      ensures Valid() && fresh(Repr - old(Repr))
      ensures ok ==> ChainOf() == Pop(old(ChainOf())) && requestorToken == apiToken
      ensures !ok ==> ChainOf() == old(ChainOf())
    {
      if parentState == null {
        return false, Undefined;
      }
      SetFrom(parentState);
      ok, requestorToken := true, apiToken;
    }

    function ToJson(): Json
      requires Valid()
      reads this, Repr
      decreases Repr
    {
      Json(FrameOf(), if parentState == null then None else Some(parentState.ToJson()))
    }

    constructor FromJson(json: Json)
      ensures Valid() && fresh(Repr)
      ensures ChainOf() == Rebuilt(json)
      ensures apiToken == json.frame.apiToken && clientId == json.frame.clientId && isGuest == json.frame.isGuest
      ensures organizationId == json.frame.organizationId && userId == json.frame.userId
      ensures csrfToken == if IsFalsy(json.frame.csrfToken) then Undefined else json.frame.csrfToken
      decreases json
    {
      apiToken, clientId, isGuest := json.frame.apiToken, json.frame.clientId, json.frame.isGuest;
      organizationId, userId := json.frame.organizationId, json.frame.userId;
      csrfToken := Or(json.frame.csrfToken, Undefined);
      if json.parentState.None? {
        parentState := null;
        Repr := {this};
      } else {
        var parent := new LoginState.FromJson(json.parentState.value);
        parentState := parent;
        Repr := {this} + parent.Repr;
      }
    }

    /** What is written out rebuilds to an equal stack, at any depth. */
    lemma ToJsonRebuilds()
      requires Valid()
      ensures Rebuilt(ToJson()) == ChainOf()
      decreases Repr
    {
      if parentState != null {
        parentState.ToJsonRebuilds();
      }
    }
  }

  function Rebuilt(json: Json): Chain {
    [Copied(json.frame)] + if json.parentState.None? then [] else Rebuilt(json.parentState.value)
  }

  // ---------- The stack laws ----------

  /** The frame is the saved one, which keeps the CSRF token before it if it saved none. */
  predicate IsRestored(f: Frame, saved: Frame, csrfToken: Field) {
    f == saved.(csrfToken := if IsFalsy(saved.csrfToken) then csrfToken else saved.csrfToken)
  }

  /** Popping restores the saved frame and leaves the parents below it. */
  lemma PopRestores(chain: Chain)
    requires |chain| > 1
    ensures IsRestored(Pop(chain)[0], chain[1], chain[0].csrfToken) && Pop(chain)[1..] == chain[2..]
  {
  }

  /** A state is saved exactly if that is asked for, it holds an API token, and it is not a guest's. */
  lemma PushesExactly(chain: Chain, preserveAsParentState: bool, currentStateIsGuest: bool)
    ensures var pushed := Push(chain, preserveAsParentState, currentStateIsGuest);
            if preserveAsParentState && !currentStateIsGuest && !IsFalsy(chain[0].apiToken)
            then pushed[0] == chain[0] && pushed[1..] == chain
            else pushed == chain
  {
  }

  /** The frame has this login, and the CSRF token and guest flag of the other. */
  predicate IsLogin(f: Frame, other: Frame, apiToken: Field, clientId: Field, organizationId: Field, userId: Field) {
    && f.apiToken == apiToken && f.clientId == clientId && f.organizationId == organizationId && f.userId == userId
    && f.csrfToken == other.csrfToken && f.isGuest == other.isGuest
  }

  /**
   Pushing a logged-in, non-guest state and opening any session on top of it is undone by ending that session:
   all seven keys return.
   */
  lemma PopUndoesSession(chain: Chain, session: Session)
    requires AllCopied(chain) && Truthy(chain[0].apiToken)
    ensures var pushed := WithSession(Push(chain, true, false), session);
            && |pushed| == |chain| + 1 && AllCopied(pushed) && Pop(pushed) == chain
            && IsLogin(
                 pushed[0], chain[0], session.token,
                 if session.hasClient then session.client else Undefined,
                 if session.hasClient then session.organization else Undefined,
                 if session.hasUser then session.user else Undefined)
  {
    var pushed := WithSession(Push(chain, true, false), session);
    assert pushed[1..] == chain;
    assert Pop(pushed)[1..] == chain[1..];
  }

  /** The same through a token, unless the current token is a guest's. */
  lemma PopUndoesToken(chain: Chain, token: Token)
    requires AllCopied(chain) && Truthy(chain[0].apiToken)
    ensures var pushed := WithToken(Push(chain, true, false), token);
            |pushed| == |chain| + 1 && AllCopied(pushed) && Pop(pushed) == chain
  {
    var pushed := WithToken(Push(chain, true, false), token);
    assert pushed == [pushed[0]] + chain;
    PopUndoesFrame(chain, pushed[0]);
  }

  /** A frame on top of a stack, with its CSRF token, comes off again. */
  lemma PopUndoesFrame(chain: Chain, top: Frame)
    requires AllCopied(chain) && top.csrfToken == chain[0].csrfToken
    ensures Pop([top] + chain) == chain
  {
  }

  /** A visitor of the site: the login state, and the detail of the token that is live in it. */
  datatype Visitor = Visitor(chain: Chain, apiTokenDetail: Option<Token>)

  /** The detail is looked up for every request, by the live token; a visitor without one is logged out. */
  predicate Consistent(v: Visitor) {
    && (v.apiTokenDetail.Some? <==> Truthy(v.chain[0].apiToken))
    && (v.apiTokenDetail.Some? ==> v.apiTokenDetail.value.token == v.chain[0].apiToken)
  }

  /** One visit to a token's link, which preserves the state; the next request finds the new token's detail. */
  function Visit(v: Visitor, token: Token): Visitor {
    Visitor(WithToken(Push(v.chain, true, IsGuest(v.apiTokenDetail)), token), if Truthy(token.token)
      then Some(token) else None)
  }

  /**
   A visit saves the state exactly when it is logged in with a token that is not a guest's; popping then returns
   it.
   */
  lemma VisitPushesExactly(v: Visitor, token: Token)
    requires Consistent(v) && AllCopied(v.chain)
    ensures var next := Visit(v, token);
            && Consistent(next) && AllCopied(next.chain)
            && IsLogin(next.chain[0], v.chain[0], token.token, token.client, token.organization, token.user)
            && (if v.apiTokenDetail.Some? && !IsGuest(v.apiTokenDetail)
                then next.chain[1..] == v.chain && Pop(next.chain) == v.chain
                else next.chain[1..] == v.chain[1..])
  {
    var next := Visit(v, token);
    if v.apiTokenDetail.Some? && !IsGuest(v.apiTokenDetail) {
      assert next.chain == [next.chain[0]] + v.chain;
      PopUndoesFrame(v.chain, next.chain[0]);
    }
  }

  function Visits(v: Visitor, tokens: seq<Token>): Visitor {
    if tokens == [] then v else Visit(Visits(v, tokens[..|tokens| - 1]), tokens[|tokens| - 1])
  }

  predicate GuestLinks(tokens: seq<Token>) {
    forall i :: 0 <= i < |tokens| ==> tokens[i].tokenType == Guest && Truthy(tokens[i].token)
  }

  /**
   What guest links leave below the live frame: the state from before the first one, if it was logged in and no
   guest's.
   */
  function BelowGuests(v: Visitor): seq<Frame> {
    if v.apiTokenDetail.Some? && !IsGuest(v.apiTokenDetail) then v.chain else v.chain[1..]
  }

  /** However many guest links are followed, at most the first one saves a state: guest sessions never stack. */
  lemma {:induction false} GuestsNeverStack(v: Visitor, tokens: seq<Token>)
    requires Consistent(v) && AllCopied(v.chain) && GuestLinks(tokens)
    ensures var end := Visits(v, tokens);
            && Consistent(end) && AllCopied(end.chain) && end.chain[0].csrfToken == v.chain[0].csrfToken
            && (tokens != [] ==> IsGuest(end.apiTokenDetail) && end.chain[1..] == BelowGuests(v))
  {
    if tokens != [] {
      var init, last := tokens[..|tokens| - 1], tokens[|tokens| - 1];
      GuestsNeverStack(v, init);
      VisitPushesExactly(Visits(v, init), last);
    }
  }

  /**
   From a logged-in state that is no guest's, any number of guest links adds one frame, and ending the session
   returns the state before them.
   */
  lemma PopLeavesGuestLinks(v: Visitor, tokens: seq<Token>)
    requires Consistent(v) && AllCopied(v.chain) && GuestLinks(tokens) && tokens != []
    requires v.apiTokenDetail.Some? && !IsGuest(v.apiTokenDetail)
    ensures var end := Visits(v, tokens);
            |end.chain| == |v.chain| + 1 && Pop(end.chain) == v.chain
  {
    var end := Visits(v, tokens);
    GuestsNeverStack(v, tokens);
    assert end.chain == [end.chain[0]] + v.chain;
    PopUndoesFrame(v.chain, end.chain[0]);
  }
}
