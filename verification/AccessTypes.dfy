/** Principals, decisions, and the rules for setting restrictions on topics. */
module AccessTypes {
  import opened Basics

  datatype Principal = Principal(memberId: Option<Id>, roles: seq<Id>, isAdmin: bool, isMachine: bool)

  datatype Reason =
    | TopicNotFound | AuthenticatedMemberRequired | InconsistentRestrictions | RequiredRoleMissing
    | ChallengeUnverifiable | ChallengeNotFound | ChallengeAccessRequired | PublicAccessMissing
    | CategoryClosed | ChallengeChildTopic | ElevatedAccessRequired | AuthorOrElevatedRequired
    | AdministratorRequired | NotApplicable | TopicLocked | Banned

  datatype Decision = Allow | Deny(reason: Reason)

  datatype CommandError =
    | NotFound | Forbidden(reason: Reason) | BadRequest | ParentPostNotFound | DuplicateId

  /** Effective restrictions of a topic chain, with its conflict flag. */
  datatype Restrictions = Restrictions(challengeId: Option<Id>, roleName: Option<Id>, hasConflict: bool)

  /** A create request may leave a restriction out, or set it (possibly to nothing). */
  datatype Requested = Omitted | Set(value: Option<Id>)

  /** One inherited restriction: children may repeat it or add one, never clear or replace it. */
  function ResolveInherited(inherited: Option<Id>, requested: Requested): Result<Option<Id>, CommandError> {
    match inherited
    case None => Ok(if requested.Set? then requested.value else None)
    case Some(_) =>
      if requested.Omitted? || requested.value == inherited then Ok(inherited) else Err(BadRequest)
  }

  /** A role update: an inherited role may only be repeated, an own role may only be kept. */
  function ResolveRoleUpdate(
    ancestorRole: Option<Id>, currentRole: Option<Id>, requested: Option<Id>): Result<Option<Id>, CommandError>
  {
    if ancestorRole.Some? then
      if requested != ancestorRole then Err(BadRequest) else Ok(ancestorRole)
    else if currentRole.Some? && requested != currentRole then Err(BadRequest)
    else Ok(requested)
  }
}
