/**
 From an API token to an authorization: src/python/zigopt/authentication/token.py,
 src/python/zigopt/api/auth.py and src/python/zigopt/authorization. The services are
 lookup tables; the foreign keys of the database are their consistency.
 */
module Authorizations {
  import opened Sequences

  type Id = nat

  datatype TokenType = UserToken | ClientDev | ClientApi | GuestToken

  datatype Requested = Nothing | Read | Write | Admin

  datatype Token = Token(
    text: string, kind: Option<TokenType>, clientId: Option<Id>, userId: Option<Id>, expired: bool,
      guestPermissions: Requested)

  datatype Client = Client(id: Id, organizationId: Id, deleted: bool)

  datatype User = User(id: Id, deleted: bool, verified: bool)

  datatype Organization = Organization(id: Id, deleted: bool)

  datatype Membership = Membership(userId: Id, organizationId: Id, isOwner: bool)

  datatype Permission = Permission(
    clientId: Id, organizationId: Id, userId: Id,
    canRead: bool, canWrite: bool, canAdmin: bool, canSeeExperimentsByOthers: bool)

  datatype Services = Services(
    tokens: map<string, Token>,
    clients: map<Id, Client>,
    users: map<Id, User>,
    organizations: map<Id, Organization>,
    memberships: map<(Id, Id), Membership>,  // by user and organization
    permissions: map<(Id, Id), Permission>,  // by client and user
    permitted: set<(Id, Id)>,                // the users whose email an organization allows
    verifiesEmail: bool
  )

  /** Rows are found under their keys, no key is zero, and the foreign keys hold. */
  ghost predicate Consistent(db: Services) {
    && 0 !in db.clients && 0 !in db.organizations
    && (forall id :: id in db.clients ==> db.clients[id].id == id && db.clients[id].organizationId in db.organizations)
    && (forall id :: id in db.users ==> db.users[id].id == id)
    && (forall id :: id in db.organizations ==> db.organizations[id].id == id)
    && (forall k :: k in db.memberships ==>
          var m := db.memberships[k]; k == (m.userId, m.organizationId) && m.userId in db.users)
    && (forall k :: k in db.permissions ==>
          var p := db.permissions[k];
          && k == (p.clientId, p.userId) && (p.userId, p.organizationId) in db.memberships
          && p.clientId in db.clients && db.clients[p.clientId].organizationId == p.organizationId)
  }

  function Find<K, V>(table: map<K, V>, key: K): Option<V> {
    if key in table then Some(table[key]) else None
  }

  predicate IsSet(id: Option<Id>) {
    id.Some? && id.value != 0
  }

  // ---------- Tokens ----------

  predicate GuestCanRead(t: Token) {
    t.kind == Some(GuestToken) && (t.guestPermissions == Read || t.guestPermissions == Write)
  }

  predicate GuestCanWrite(t: Token) {
    t.kind == Some(GuestToken) && t.guestPermissions == Write
  }

  predicate AllExperiments(t: Token) {
    GuestCanWrite(t) || t.kind == Some(ClientApi) || t.kind == Some(ClientDev) || t.kind == Some(UserToken)
  }

  // ---------- Authentication ----------

  datatype Error = Forbidden | InvalidTokenType | MissingUser | AssertionFailed | NoToken

  datatype Result<T> = Ok(value: T) | Raised(error: Error)

  datatype Authentication = Authentication(
    token: Option<Token>, user: Option<User>, client: Option<Client>, permission: Option<Permission>,
      membership: Option<Membership>)

  const NOBODY := Authentication(None, None, None, None, None)

  function AuthenticateToken(db: Services, text: string): Result<Authentication> {
    match Find(db.tokens, text)
    case None => Ok(NOBODY)
    case Some(t) =>
      if t.expired then Raised(Forbidden)
      else if t.kind == Some(ClientApi) || t.kind == Some(ClientDev) || t.kind == Some(GuestToken)
        then AuthenticateClientToken(db, t)
      else if t.kind == Some(UserToken) then AuthenticateUserToken(db, t)
      else Raised(InvalidTokenType)
  }

  function AuthenticateClientToken(db: Services, t: Token): Result<Authentication> {
    if !IsSet(t.clientId) || t.clientId.value !in db.clients then Ok(NOBODY)
    else
      var client := db.clients[t.clientId.value];
      if client.deleted then Raised(Forbidden)
      else if t.userId.None? then Ok(Authentication(Some(t), None, Some(client), None, None))
      else
        var membership := Find(db.memberships, (t.userId.value, client.organizationId));
        var permission := Find(db.permissions, (t.clientId.value, t.userId.value));
        if membership.Some? && ((permission.Some? && permission.value.canRead) || membership.value.isOwner) then
          if t.userId.value !in db.users then Raised(MissingUser)
          else if db.users[t.userId.value].deleted then Raised(Forbidden)
          else Ok(Authentication(Some(t), Some(db.users[t.userId.value]), Some(client), permission, membership))
        else Ok(NOBODY)
  }

  function AuthenticateUserToken(db: Services, t: Token): Result<Authentication> {
    if !IsSet(t.userId) || t.userId.value !in db.users then Ok(NOBODY)
    else if db.users[t.userId.value].deleted then Raised(Forbidden)
    else Ok(Authentication(Some(t), Some(db.users[t.userId.value]), None, None, None))
  }

  // ---------- Authorizations ----------

  datatype UserAuthorization = UserAuthorization(
    user: User, token: Option<Token>, scopedMembership: Option<Membership>, scopedPermission: Option<Permission>)

  datatype Authorization =
    | Empty
    | OfUser(auth: UserAuthorization)
    | OfOwner(client: Client, token: Token, membership: Membership, auth: UserAuthorization)
    | OfMember(client: Client, token: Token, membership: Membership, permission: Permission, auth: UserAuthorization)
    | OfClient(client: Client, token: Token)
    | OfGuest(client: Client, token: Token)
    | OfSignupLink(client: Client, token: Token)

  /** What the constructors assert. */
  predicate Constructible(a: Authorization) {
    match a
    case OfOwner(client, token, membership, auth) =>
      && membership.isOwner && membership.organizationId == client.organizationId && membership.userId == auth.user.id
      && ClientUserConstructible(client, token, membership, auth)
    case OfMember(client, token, membership, permission, auth) =>
      && permission.clientId == client.id && permission.userId == auth.user.id
      && ClientUserConstructible(client, token, membership, auth)
    case OfClient(client, token) => token.clientId == Some(client.id) && AllExperiments(token)
    case OfGuest(client, token) => token.clientId == Some(client.id)
    case OfSignupLink(client, token) => token.clientId == Some(client.id)
    case _ => true
  }

  predicate ClientUserConstructible(client: Client, token: Token, membership: Membership, auth: UserAuthorization) {
    && token.clientId == Some(client.id)
    && auth.scopedMembership == Some(membership)
    && (membership.isOwner || auth.scopedPermission.Some?)
  }

  function Construct(a: Authorization): Result<Authorization> {
    if Constructible(a) then Ok(a) else Raised(AssertionFailed)
  }

  function DoApiTokenAuthentication(db: Services, text: string, mandatory: bool): Result<Authorization> {
    if text == "" then (if mandatory then Raised(NoToken) else Ok(Empty))
    else
      match AuthenticateToken(db, text)
      case Raised(e) => Raised(e)
      case Ok(a) => Dispatch(a)
  }

  function Dispatch(a: Authentication): Result<Authorization> {
    if a.client.Some? then
      if a.user.Some? && a.membership.Some? then
        var auth := UserAuthorization(a.user.value, a.token, a.membership, a.permission);
        if a.token.None? then Raised(AssertionFailed)
        else if a.membership.value.isOwner
          then Construct(OfOwner(a.client.value, a.token.value, a.membership.value, auth))
        else if a.permission.None? then Raised(AssertionFailed)
        else Construct(OfMember(a.client.value, a.token.value, a.membership.value, a.permission.value, auth))
      else if a.user.Some? || a.permission.Some? || a.membership.Some? || a.token.None? then Raised(AssertionFailed)
      else if AllExperiments(a.token.value) then Construct(OfClient(a.client.value, a.token.value))
      else if GuestCanRead(a.token.value) then Construct(OfGuest(a.client.value, a.token.value))
      else Construct(OfSignupLink(a.client.value, a.token.value))
    else if a.user.Some? then Ok(OfUser(UserAuthorization(a.user.value, a.token, None, None)))
    else Raised(Forbidden)
  }

  /** The scoped rows are the ones the database holds for this user on this client. */
  ghost predicate ScopedTo(db: Services, auth: UserAuthorization, client: Client) {
    && client.id in db.clients && db.clients[client.id] == client && !client.deleted
    && auth.user.id in db.users && db.users[auth.user.id] == auth.user && !auth.user.deleted
    && (auth.user.id, client.organizationId) in db.memberships
    && auth.scopedMembership == Some(db.memberships[(auth.user.id, client.organizationId)])
    && auth.scopedPermission == Find(db.permissions, (client.id, auth.user.id))
    && (auth.scopedMembership.value.isOwner || (auth.scopedPermission.Some? && auth.scopedPermission.value.canRead))
  }

  /** The authorization is for the client and the user of this live token, with the rows the database has for them. */
  ghost predicate Speaks(db: Services, text: string, a: Authorization) {
    text in db.tokens && !db.tokens[text].expired &&
    var t := db.tokens[text];
    match a
    case Empty => false
    case OfUser(auth) => t.userId == Some(auth.user.id) && Find(db.users, auth.user.id) == Some(auth.user)
      && !auth.user.deleted && auth == Unscoped(auth)
    case OfOwner(client, token, membership, auth) =>
      && token == t && t.userId == Some(auth.user.id) && t.clientId == Some(client.id) && ScopedTo(db, auth, client)
      && auth.scopedMembership == Some(membership) && membership.isOwner
    case OfMember(client, token, membership, permission, auth) =>
      && token == t && t.userId == Some(auth.user.id) && t.clientId == Some(client.id) && ScopedTo(db, auth, client)
      && auth.scopedMembership == Some(membership) && !membership.isOwner && auth.scopedPermission == Some(permission)
    case _ =>
      && a.token == t && t.userId.None? && t.clientId == Some(a.client.id)
      && Find(db.clients, a.client.id) == Some(a.client) && !a.client.deleted
      && (a.OfClient? <==> AllExperiments(t)) && (a.OfGuest? <==> GuestCanRead(t) && !AllExperiments(t))
  }

  function Unscoped(auth: UserAuthorization): UserAuthorization {
    auth.(scopedMembership := None, scopedPermission := None)
  }

  /** No assertion on the way fails, no user is missing, and what comes out speaks for the token. */
  lemma DispatchIsSound(db: Services, text: string, mandatory: bool)
    requires Consistent(db)
    ensures var r := DoApiTokenAuthentication(db, text, mandatory);
            && (r.Raised? ==> r.error != AssertionFailed && r.error != MissingUser)
            && (r.Ok? && text != "" ==> Constructible(r.value) && Speaks(db, text, r.value))
            && (r.Ok? && text == "" ==> r.value == Empty && !mandatory)
  {
    if text in db.tokens {
      ClientTokenIsComplete(db, db.tokens[text]);
    }
  }

  lemma ClientTokenIsComplete(db: Services, t: Token)
    requires Consistent(db)
    ensures var r := AuthenticateClientToken(db, t);
            && (r.Raised? ==> r.error == Forbidden)
            && (r.Ok? && r.value != NOBODY ==>
                  && r.value.token == Some(t) && r.value.client.Some? && t.clientId == Some(r.value.client.value.id)
                  && Find(db.clients, r.value.client.value.id) == r.value.client && !r.value.client.value.deleted
                  && (r.value.user.Some? <==> t.userId.Some?) && (r.value.membership.Some? <==> t.userId.Some?)
                  && (t.userId.None? ==> r.value.permission.None?)
                  && (t.userId.Some? ==>
                        && t.userId == Some(r.value.user.value.id)
                        && ScopedTo(db, UserAuthorization(r.value.user.value, Some(t), r.value.membership,
                             r.value.permission), r.value.client.value)))
  {
  }

  // ---------- Checks ----------

  datatype Verdict = Allowed | Denied | NeedsEmailVerification

  function ComparePermissions(p: Option<Permission>, requested: Requested): Verdict {
    if p.None? then Denied
    else
      match requested
      case Read => if p.value.canRead then Allowed else Denied
      case Write => if p.value.canWrite then Allowed else Denied
      case Admin => if p.value.canAdmin then Allowed else Denied
      case Nothing => Denied
  }

  function NoMembershipStatus(db: Services, auth: UserAuthorization): Verdict {
    if db.verifiesEmail && !auth.user.verified then NeedsEmailVerification else Denied
  }

  function InferOrganizationId(db: Services, auth: UserAuthorization, clientId: Id): Option<Id> {
    if auth.scopedPermission.Some? && auth.scopedPermission.value.clientId == clientId
    then Some(auth.scopedPermission.value.organizationId)
    else
      match Find(db.clients, clientId)
      case Some(client) => if client.deleted then None else Some(client.organizationId)
      case None => None
  }

  function InferOrganization(db: Services, organizationId: Option<Id>): Option<Organization> {
    if organizationId.None? then None
    else
      match Find(db.organizations, organizationId.value)
      case Some(organization) => if organization.deleted then None else Some(organization)
      case None => None
  }

  function MembershipIn(db: Services, auth: UserAuthorization, organization: Option<Organization>): Option<Membership> {
    if organization.None? || (auth.user.id, organization.value.id) !in db.permitted then None
    else if auth.scopedMembership.Some? then
      if auth.scopedMembership.value.organizationId == organization.value.id then auth.scopedMembership else None
    else Find(db.memberships, (auth.user.id, organization.value.id))
  }

  function PermissionOn(db: Services, auth: UserAuthorization, clientId: Id): Option<Permission> {
    if clientId == 0 then None
    else if auth.scopedPermission.Some? then
      if auth.scopedPermission.value.clientId == clientId then auth.scopedPermission else None
    else Find(db.permissions, (clientId, auth.user.id))
  }

  function CanActOnClientId(
    db: Services, auth: UserAuthorization, requested: Requested, clientId: Id, organizationId: Option<Id>): Verdict {
    if clientId == 0 then Denied
    else
      var organizationId := if IsSet(organizationId) then organizationId else InferOrganizationId(db, auth, clientId);
      var membership := MembershipIn(db, auth, InferOrganization(db, organizationId));
      if membership.None? then NoMembershipStatus(db, auth)
      else if membership.value.isOwner then Allowed
      else ComparePermissions(PermissionOn(db, auth, clientId), requested)
  }

  function CanActOnOrganization(
    db: Services, auth: UserAuthorization, requested: Requested, organization: Option<Organization>): Verdict {
    if organization.None? then Denied
    else
      var membership := MembershipIn(db, auth, organization);
      if membership.None? then NoMembershipStatus(db, auth)
      else if requested == Read then Allowed
      else if requested == Write || requested == Admin then (if membership.value.isOwner then Allowed else Denied)
      else Denied
  }

  function CanActOnClientArtifacts(
    db: Services, auth: UserAuthorization, requested: Requested, clientId: Id, owner: Option<Id>): Verdict {
    var organizationId := InferOrganizationId(db, auth, clientId);
    if !IsSet(organizationId) then Denied
    else
      var membership := MembershipIn(db, auth, InferOrganization(db, organizationId));
      if membership.None? then NoMembershipStatus(db, auth)
      else if membership.value.isOwner then Allowed
      else
        var p := PermissionOn(db, auth, clientId);
        if p.None? then Denied
        else if p.value.canSeeExperimentsByOthers || owner == Some(auth.user.id) then ComparePermissions(p, requested)
        else NoMembershipStatus(db, auth)
  }

  /** `a and b` of two verdicts. */
  function And(a: Verdict, b: Verdict): Verdict {
    if a == Allowed then b else a
  }

  function Holds(b: bool): Verdict {
    if b then Allowed else Denied
  }

  function MemberCanActOnClientId(db: Services, a: Authorization, requested: Requested, clientId: Id): Verdict
    requires a.OfMember?
  {
    And(Holds(a.permission.clientId == clientId), CanActOnClientId(db, a.auth, requested, clientId, None))
  }

  function MemberCanActOnClientArtifacts(
    db: Services, a: Authorization, requested: Requested, clientId: Id, owner: Option<Id>): Verdict
    requires a.OfMember?
  {
    if MemberCanActOnClientId(db, a, requested, clientId) != Allowed then Denied
    else
      var ownerCanSee := if a.permission.canSeeExperimentsByOthers
        then clientId == a.client.id else owner == Some(a.auth.user.id);
      And(Holds(ownerCanSee), CanActOnClientArtifacts(db, a.auth, requested, clientId, owner))
  }

  function OwnerCanActOnClient(db: Services, a: Authorization, requested: Requested, client: Client): Verdict
    requires a.OfOwner?
  {
    And(Holds(client.organizationId == a.membership.organizationId),
        CanActOnClientId(db, a.auth, requested, client.id, Some(client.organizationId)))
  }

  function OwnerCanActOnClientArtifacts(
    db: Services, a: Authorization, requested: Requested, clientId: Id, owner: Option<Id>): Verdict
    requires a.OfOwner?
  {
    match Find(db.clients, clientId)
    case None => Denied
    case Some(client) =>
      if client.deleted then Denied
      else And(OwnerCanActOnClient(db, a, requested, client),
        CanActOnClientArtifacts(db, a.auth, requested, clientId, owner))
  }

  /**
   A member's and an owner's check on an organization goes by the organization of the permission or the
   membership.
   */
  function ClientUserCanActOnOrganization(
    db: Services, a: Authorization, requested: Requested, organization: Organization): Verdict
    requires a.OfMember? || a.OfOwner?
  {
    var organizationId := if a.OfMember? then a.permission.organizationId else a.membership.organizationId;
    And(Holds(organizationId == organization.id), CanActOnOrganization(db, a.auth, requested, Some(organization)))
  }

  // ---------- The fast paths ----------

  /** What a scope leaves: the token's own client, or for an owner every client of its organization. */
  predicate InScope(db: Services, auth: UserAuthorization, client: Client, clientId: Id) {
    && clientId in db.clients && db.clients[clientId].organizationId == client.organizationId
    && auth.scopedMembership.Some? && (auth.scopedMembership.value.isOwner || clientId == client.id)
  }

  /**
   Where the scope reaches, the fetched rows give the verdict of looking them up again; elsewhere nothing is
   allowed.
   */
  lemma ScopedClientVerdict(
    db: Services, auth: UserAuthorization, client: Client, requested: Requested, clientId: Id,
    organizationId: Option<Id>)
    requires Consistent(db) && ScopedTo(db, auth, client)
    requires organizationId.Some? ==>
               clientId in db.clients && db.clients[clientId].organizationId == organizationId.value
    ensures var verdict := CanActOnClientId(db, auth, requested, clientId, organizationId);
            if InScope(db, auth, client, clientId)
            then verdict == CanActOnClientId(db, Unscoped(auth), requested, clientId, organizationId)
            else verdict != Allowed
  {
  }

  lemma ScopedArtifactVerdict(
    db: Services, auth: UserAuthorization, client: Client, requested: Requested, clientId: Id, owner: Option<Id>)
    requires Consistent(db) && ScopedTo(db, auth, client)
    ensures var verdict := CanActOnClientArtifacts(db, auth, requested, clientId, owner);
            if InScope(db, auth, client, clientId)
            then verdict == CanActOnClientArtifacts(db, Unscoped(auth), requested, clientId, owner)
            else verdict != Allowed
  {
  }

  lemma ScopedOrganizationVerdict(
    db: Services, auth: UserAuthorization, client: Client, requested: Requested, organization: Organization)
    requires Consistent(db) && ScopedTo(db, auth, client)
    ensures var verdict := CanActOnOrganization(db, auth, requested, Some(organization));
            if organization.id == client.organizationId
            then verdict == CanActOnOrganization(db, Unscoped(auth), requested, Some(organization))
            else verdict != Allowed
  {
  }

  /** Checking a member's artifact twice allows what checking it once does. */
  lemma MemberDoubleCheck(
    db: Services, text: string, a: Authorization, requested: Requested, clientId: Id, owner: Option<Id>)
    requires Consistent(db) && a.OfMember? && Speaks(db, text, a)
    ensures MemberCanActOnClientArtifacts(db, a, requested, clientId, owner) == Allowed
       <==> CanActOnClientArtifacts(db, a.auth, requested, clientId, owner) == Allowed
  {
  }

  lemma OwnerDoubleCheck(
    db: Services, text: string, a: Authorization, requested: Requested, clientId: Id, owner: Option<Id>)
    requires Consistent(db) && a.OfOwner? && Speaks(db, text, a)
    ensures OwnerCanActOnClientArtifacts(db, a, requested, clientId, owner) == Allowed
       <==> CanActOnClientArtifacts(db, a.auth, requested, clientId, owner) == Allowed
  {
  }

  // ---------- What the checks decide, in terms of rows ----------

  /** The organization exists, is not deleted, and takes the user's email. */
  predicate Admits(db: Services, organizationId: Id, user: User) {
    && organizationId in db.organizations && !db.organizations[organizationId].deleted
    && (user.id, organizationId) in db.permitted
  }

  predicate IsMember(db: Services, organizationId: Id, user: User) {
    Admits(db, organizationId, user) && (user.id, organizationId) in db.memberships
  }

  predicate IsOwner(db: Services, organizationId: Id, user: User) {
    IsMember(db, organizationId, user) && db.memberships[(user.id, organizationId)].isOwner
  }

  /** The user's permission on the client grants what is requested. */
  predicate Grants(db: Services, clientId: Id, user: User, requested: Requested) {
    && (clientId, user.id) in db.permissions
    && var p := db.permissions[(clientId, user.id)];
       || (requested == Read && p.canRead)
       || (requested == Write && p.canWrite)
       || (requested == Admin && p.canAdmin)
  }

  predicate SeesArtifact(db: Services, clientId: Id, user: User, owner: Option<Id>) {
    && (clientId, user.id) in db.permissions
    && (db.permissions[(clientId, user.id)].canSeeExperimentsByOthers || owner == Some(user.id))
  }

  predicate IsLive(db: Services, clientId: Id) {
    clientId in db.clients && !db.clients[clientId].deleted
  }

  /** Looked up, an owner may do anything on a client of the organization and a member what the permission grants. */
  lemma ClientRule(db: Services, auth: UserAuthorization, requested: Requested, clientId: Id)
    requires Consistent(db) && auth == Unscoped(auth)
    ensures CanActOnClientId(db, auth, requested, clientId, None) == Allowed
       <==> && IsLive(db, clientId)
            && var organizationId := db.clients[clientId].organizationId;
               || IsOwner(db, organizationId, auth.user)
               || (IsMember(db, organizationId, auth.user) && Grants(db, clientId, auth.user, requested))
  {
  }

  /**
   An artifact needs, of a member, also that the permission shows the artifacts of others, or that it is the
   member's own.
   */
  lemma ArtifactRule(db: Services, auth: UserAuthorization, requested: Requested, clientId: Id, owner: Option<Id>)
    requires Consistent(db) && auth == Unscoped(auth)
    ensures CanActOnClientArtifacts(db, auth, requested, clientId, owner) == Allowed
       <==> && IsLive(db, clientId)
            && var organizationId := db.clients[clientId].organizationId;
               || IsOwner(db, organizationId, auth.user)
               || (&& IsMember(db, organizationId, auth.user)
                   && Grants(db, clientId, auth.user, requested) && SeesArtifact(db, clientId, auth.user, owner))
  {
  }

  /** Every member may read the organization, and only owners may change it. */
  lemma OrganizationRule(db: Services, auth: UserAuthorization, requested: Requested, organization: Organization)
    requires Consistent(db) && auth == Unscoped(auth) && Find(db.organizations, organization.id) == Some(organization)
    ensures !organization.deleted ==>
              (CanActOnOrganization(db, auth, requested, Some(organization)) == Allowed
               <==> || (requested == Read && IsMember(db, organization.id, auth.user))
                    || (requested == Write && IsOwner(db, organization.id, auth.user))
                    || (requested == Admin && IsOwner(db, organization.id, auth.user)))
  {
  }

  /**
   A user who is no member of the client's organization is told to verify the email exactly if that is still to
   be done.
   */
  lemma UnverifiedIsTold(db: Services, auth: UserAuthorization, requested: Requested, clientId: Id)
    requires Consistent(db) && auth == Unscoped(auth)
    ensures CanActOnClientId(db, auth, requested, clientId, None) == NeedsEmailVerification
       <==> && clientId != 0 && db.verifiesEmail && !auth.user.verified
            && !(IsLive(db, clientId) && IsMember(db, db.clients[clientId].organizationId, auth.user))
  {
  }

  /**
   A token's member may do on the token's client exactly what the permission grants, and nothing on another
   client.
   */
  lemma MemberRule(db: Services, text: string, a: Authorization, requested: Requested, clientId: Id, owner: Option<Id>)
    requires Consistent(db) && a.OfMember? && Speaks(db, text, a)
    ensures var on := clientId == a.client.id && Admits(db, a.client.organizationId, a.auth.user);
            && (MemberCanActOnClientId(db, a, requested, clientId) == Allowed
                <==> on && Grants(db, clientId, a.auth.user, requested))
            && (MemberCanActOnClientArtifacts(db, a, requested, clientId, owner) == Allowed
                <==> && on
                     && Grants(db, clientId, a.auth.user, requested)
                     && SeesArtifact(db, clientId, a.auth.user, owner))
  {
    MemberDoubleCheck(db, text, a, requested, clientId, owner);
    ScopedClientVerdict(db, a.auth, a.client, requested, clientId, None);
    ScopedArtifactVerdict(db, a.auth, a.client, requested, clientId, owner);
    ClientRule(db, Unscoped(a.auth), requested, clientId);
    ArtifactRule(db, Unscoped(a.auth), requested, clientId, owner);
  }

  /** A token's owner may do anything on every live client of the organization, and nothing elsewhere. */
  lemma OwnerRule(db: Services, text: string, a: Authorization, requested: Requested, clientId: Id, owner: Option<Id>)
    requires Consistent(db) && a.OfOwner? && Speaks(db, text, a)
    ensures OwnerCanActOnClientArtifacts(db, a, requested, clientId, owner) == Allowed
       <==> && IsLive(db, clientId) && db.clients[clientId].organizationId == a.client.organizationId
            && Admits(db, a.client.organizationId, a.auth.user)
  {
    OwnerDoubleCheck(db, text, a, requested, clientId, owner);
    ScopedArtifactVerdict(db, a.auth, a.client, requested, clientId, owner);
    ArtifactRule(db, Unscoped(a.auth), requested, clientId, owner);
  }

  /** On organizations, a token's member may read the client's, and a token's owner may also change it. */
  lemma ClientUserOrganizationRule(
    db: Services, text: string, a: Authorization, requested: Requested, organization: Organization)
    requires Consistent(db) && (a.OfMember? || a.OfOwner?) && Speaks(db, text, a)
    requires Find(db.organizations, organization.id) == Some(organization) && !organization.deleted
    ensures ClientUserCanActOnOrganization(db, a, requested, organization) == Allowed
       <==> && organization.id == a.client.organizationId && Admits(db, organization.id, a.auth.user)
            && (requested == Read || (a.OfOwner? && (requested == Write || requested == Admin)))
  {
    ScopedOrganizationVerdict(db, a.auth, a.client, requested, organization);
    OrganizationRule(db, Unscoped(a.auth), requested, organization);
  }

  // ---------- Which tokens are let in ----------

  predicate IsLiveUser(db: Services, userId: Option<Id>) {
    userId.Some? && userId.value in db.users && !db.users[userId.value].deleted
  }

  /** A client token with a user lets in an owner of the client's organization, or a member who may read the client. */
  predicate LetsIn(db: Services, clientId: Id, userId: Id)
    requires clientId in db.clients
  {
    var key := (userId, db.clients[clientId].organizationId);
    && key in db.memberships
    && (|| db.memberships[key].isOwner
        || ((clientId, userId) in db.permissions && db.permissions[(clientId, userId)].canRead))
  }

  predicate IsClientToken(t: Token) {
    t.kind == Some(ClientApi) || t.kind == Some(ClientDev) || t.kind == Some(GuestToken)
  }

  /** Exactly these tokens are let in, and this is what each is let in as. */
  lemma LetInExactly(db: Services, text: string, mandatory: bool)
    requires Consistent(db) && text in db.tokens
    ensures var t, r := db.tokens[text], DoApiTokenAuthentication(db, text, mandatory);
            && (text != "" && t.kind == Some(UserToken) ==>
                  && (r.Ok? <==> !t.expired && t.userId != Some(0) && IsLiveUser(db, t.userId))
                  && (r.Ok? ==> r.value.OfUser?))
            && (text != "" && IsClientToken(t) ==>
                  && (r.Ok? <==>
                        && !t.expired && t.clientId.Some? && IsLive(db, t.clientId.value)
                        && (t.userId.Some? ==>
                              LetsIn(db, t.clientId.value, t.userId.value) && IsLiveUser(db, t.userId)))
                  && (r.Ok? && t.userId.Some? ==>
                        if db.memberships[(t.userId.value, db.clients[t.clientId.value].organizationId)].isOwner
                        then r.value.OfOwner? else r.value.OfMember?)
                  && (r.Ok? && t.userId.None? ==>
                        match t.kind.value
                        case GuestToken =>
                          (match t.guestPermissions
                           case Write => r.value.OfClient?
                           case Read => r.value.OfGuest?
                           case _ => r.value.OfSignupLink?)
                        case _ => r.value.OfClient?))
            && (text != "" && t.kind.None? ==> r.Raised?)
  {
    DispatchIsSound(db, text, mandatory);
  }
}
