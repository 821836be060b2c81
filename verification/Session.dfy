/** Session identities, and how far a change of session reaches into the stores. Empty strings stand for
    ids that are missing. */
module Session {
  import opened JsStrings

  datatype Session = Session(user: string, tenant: string, ws: Option<string>,
                             requiresSetup: bool, impersonator: Option<string>)

  datatype Level = Unchanged | Workspace | Full

  function UserOf(session: Option<Session>): string { if session.Some? then session.value.user else "" }

  function IdentityOf(session: Option<Session>): Option<Session> {
    if session.None? || session.value.user == "" || session.value.tenant == "" then None else session
  }

  function CompareIdentity(prev: Option<Session>, next: Option<Session>): Level {
    if next.None? || prev.None? then Full
    else
      var p, n := prev.value, next.value;
      if p.user != n.user || p.impersonator != n.impersonator || p.tenant != n.tenant then Full
      else if p.ws != n.ws || p.requiresSetup != n.requiresSetup then Workspace
      else Unchanged
  }

  /** On a cold load the stored token stands for the previous identity. */
  function ColdLevel(next: Session, tokenUser: string, tokenWs: Option<string>): Option<Level> {
    var id := IdentityOf(Some(next));
    if tokenUser == "" || id.None? || tokenUser != id.value.user then None
    else Some(CompareIdentity(Some(next.(ws := tokenWs)), id))
  }

  /** What setSession is called with, besides the session: an explicit level, whether the reason is a plain
      update, and the identity in the access token. */
  datatype Options = Options(level: Option<Level>, isUpdate: bool, tokenUser: string, tokenWs: Option<string>)

  function LevelOf(prev: Option<Session>, next: Session, o: Options): Level {
    var cold := if o.level.None? && prev.None? && o.isUpdate then ColdLevel(next, o.tokenUser, o.tokenWs) else o.level;
    if cold.Some? then cold.value else CompareIdentity(IdentityOf(prev), IdentityOf(Some(next)))
  }

  /** With no explicit level, replacing the session of one user by that of another is a full boundary. */
  lemma UserChangeIsFull(prev: Session, next: Session, o: Options)
    requires o.level.None? && prev.user != next.user
    ensures LevelOf(Some(prev), next, o) == Full
  {
  }

  /** A replaced session is met by no boundary exactly when user, tenant, impersonator, workspace and setup flag all
      stay; and by one below full exactly when the first three stay. */
  lemma LevelExactly(prev: Session, next: Session, o: Options)
    requires o.level.None?
    ensures LevelOf(Some(prev), next, o) != Full
        <==> next.user == prev.user != "" && next.tenant == prev.tenant != "" && next.impersonator == prev.impersonator
    ensures LevelOf(Some(prev), next, o) == Unchanged <==> next == prev && prev.user != "" && prev.tenant != ""
  {
  }

  /** A cold load reaches below full exactly as a plain update for the user the token names, and leaves everything in
      place exactly when the token names the workspace too. */
  lemma ColdLoad(next: Session, o: Options)
    requires o.level.None?
    ensures LevelOf(None, next, o) != Full <==> o.isUpdate && o.tokenUser == next.user != "" && next.tenant != ""
    ensures LevelOf(None, next, o) == Unchanged
        <==> o.isUpdate && o.tokenUser == next.user != "" && next.tenant != "" && o.tokenWs == next.ws
  {
  }

  /** An explicit level is honoured whatever the sessions. */
  lemma ExplicitLevel(prev: Option<Session>, next: Session, o: Options)
    requires o.level.Some?
    ensures LevelOf(prev, next, o) == o.level.value
  {
  }
}
