/** The records the reconciliation passes between its stages. */
module Records {
  import opened Wrappers

  /**
   * One user as a site's user listing returns it: its name, its `lastLogin`
   * text (None when the key is missing) and its `siteRole`.
   */
  datatype UserRecord = UserRecord(name: string, lastLogin: Option<string>, siteRole: string)

  /**
   * One site's name with the users fetched for it; a site whose sign-in or
   * listing failed contributes no users.
   */
  datatype SiteUsers = SiteUsers(siteName: string, users: seq<UserRecord>)

  /** One user as it reaches the merged dictionary: a site name with a user record. */
  datatype Sighting = Sighting(site: string, user: UserRecord)

  /** A merged entry `{'name', 'lastLogin', 'sites', 'siteRole'}` of the user dictionary. */
  datatype Identity = Identity(name: string, lastLogin: Option<string>, sites: seq<string>, siteRole: string)
}
