/** The account records the handshake returns and the processor keeps
    (config.go). They carry no behaviour of their own. */
module Configuration {

  datatype UserProfile = UserProfile(
    firstName: string,
    lastName: string,
    realName: string,
    title: string,
    realNameNormalized: string,
    email: string)

  /** A team member; the directory is keyed by `id`. */
  datatype User = User(
    id: string,
    name: string,
    realName: string,
    deleted: bool,
    color: string,
    isAdmin: bool,
    isOwner: bool,
    isPrimaryOwner: bool,
    isBot: bool,
    profile: UserProfile)

  datatype Channel = Channel(
    id: string,
    name: string,
    isChannel: bool,
    isIM: bool,
    created: int,
    creator: string,
    isArchived: bool,
    isGeneral: bool,
    isMember: bool,
    members: seq<string>)

  /** The handshake response the connection keeps and the `hello` handler reads. */
  datatype Config = Config(
    ok: bool,
    error: string,
    self: User,
    channels: seq<Channel>,
    url: string,
    users: seq<User>)

  /** Go's zero value of `User`: what a failed decode leaves behind. */
  const ZeroUser: User :=
    User("", "", "", false, "", false, false, false, false, UserProfile("", "", "", "", "", ""))
}
