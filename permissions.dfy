/** IsAdminAuthorOrReadOnly of api/permissions.py. */
module Permissions {
  import opened Models

  /** DRF's SAFE_METHODS. */
  const SafeMethods := {"GET", "HEAD", "OPTIONS"}

  /** What the permission reads of request.user. */
  datatype Requester = AnonymousUser | Member(id: UserId, isStaff: bool, isSuperuser: bool)

  /** The requester behind a viewer, with the flags of the stored user. */
  function RequesterOf(t: Tables, viewer: Viewer): Requester
    requires viewer.Authenticated? ==> viewer.id in t.users
  {
    match viewer
    case Anonymous => AnonymousUser
    case Authenticated(id) => Member(id, t.users[id].isStaff, t.users[id].isSuperuser)
  }

  /** has_permission: any safe method, or any authenticated requester. */
  function HasPermission(verb: string, who: Requester): (r: bool)
    ensures verb in SafeMethods ==> r
    ensures verb !in SafeMethods ==> (r <==> who.Member?)
  {
    verb in SafeMethods || who.Member?
  }

  /** has_object_permission: a safe method, or a superuser, a staff member
      or the object's author. */
  function HasObjectPermission(verb: string, who: Requester, author: UserId): (r: bool)
    ensures verb in SafeMethods ==> r
    ensures who.Member? && (who.isSuperuser || who.isStaff || who.id == author) ==> r
    ensures verb !in SafeMethods && who.AnonymousUser? ==> !r
    ensures verb !in SafeMethods && who.Member? && !who.isSuperuser && !who.isStaff && who.id != author ==> !r
  {
    verb in SafeMethods || (who.Member? && (who.isSuperuser || who.isStaff || who.id == author))
  }

  /** Whoever may act on an object may also make the request. */
  lemma ObjectPermissionImpliesPermission(verb: string, who: Requester, author: UserId)
    ensures HasObjectPermission(verb, who, author) ==> HasPermission(verb, who)
  {
  }

  /** A recipe's author may change it, and so may staff and superusers; any
      other stored user may not, and nor may an anonymous requester. */
  lemma RecipeWriters(t: Tables, viewer: Viewer, id: RecipeId, verb: string)
    requires viewer.Authenticated? ==> viewer.id in t.users
    requires id in t.recipes && verb !in SafeMethods
    ensures HasObjectPermission(verb, RequesterOf(t, viewer), t.recipes[id].author) <==>
      viewer.Authenticated? &&
      (viewer.id == t.recipes[id].author || t.users[viewer.id].isStaff || t.users[viewer.id].isSuperuser)
  {
  }
}
