/**
 * User creation through a factory: the factory picks a concrete creator from
 * the requested role, the creator overwrites the request's role with its own,
 * and the shared base step stores a record built from the request, with the
 * password replaced by its hash.
 */
module UserFactory {
  import opened Wrappers
  import opened Models
  import opened Database

  /** A registration request after validation; an absent or null role is `None`. */
  datatype UserCreate = UserCreate(
    email: string,
    username: string,
    fullName: string,
    password: string,
    role: Option<Role>)

  /** The two concrete creators. */
  datatype Creator = LibrarianCreator | MemberCreator {
    /** The role the creator writes into the request before storing it. */
    function AssignedRole(): Role {
      match this
      case LibrarianCreator => Librarian
      case MemberCreator => Member
    }
  }

  /** The creator the factory picks: the librarian creator only for a LIBRARIAN request. */
  function ChooseCreator(data: UserCreate): (c: Creator)
    ensures c == LibrarianCreator <==> data.role == Some(Librarian)
  {
    var role := data.role.GetOr(Member);
    if role == Librarian then LibrarianCreator else MemberCreator
  }

  /**
   * The role the factory stores: LIBRARIAN exactly when asked for, MEMBER
   * for no role and for every other role, so never ADMIN.
   */
  function ResolveRole(data: UserCreate): (r: Role)
    ensures r != Admin
    ensures r == Librarian <==> data.role == Some(Librarian)
    ensures data.role.None? ==> r == Member
    ensures data.role == Some(Admin) ==> r == Member
  {
    ChooseCreator(data).AssignedRole()
  }

  /** Stores a user built from the request: the role the request names (MEMBER if none), the hash of its password. */
  method CreateBaseUser(db: Db, data: UserCreate) returns (user: User)
    requires db.Valid()
    modifies db`users, db`nextUserId
    ensures db.Valid()
    ensures user.email == data.email && user.username == data.username && user.fullName == data.fullName
    ensures user.hashedPassword == HashOf(data.password)
    ensures user.role == data.role.GetOr(Member)
    ensures user.isActive && !user.isBanned
    ensures db.users == old(db.users)[old(db.nextUserId) := user]
    ensures db.nextUserId == old(db.nextUserId) + 1
  {
    user := User(data.email, data.username, HashOf(data.password), data.fullName, data.role.GetOr(Member), true, false);
    db.users := db.users[db.nextUserId := user];
    db.nextUserId := db.nextUserId + 1;
  }

  /** A concrete creator: sets the request's role to its own, then runs the base step. */
  method CreateWith(db: Db, creator: Creator, data: UserCreate) returns (user: User)
    requires db.Valid()
    modifies db`users, db`nextUserId
    ensures db.Valid()
    ensures user.role == creator.AssignedRole()
    ensures user.email == data.email && user.username == data.username && user.fullName == data.fullName
    ensures user.hashedPassword == HashOf(data.password)
    ensures user.isActive && !user.isBanned
    ensures db.users == old(db.users)[old(db.nextUserId) := user]
    ensures db.nextUserId == old(db.nextUserId) + 1
  {
    var request := data.(role := Some(creator.AssignedRole()));
    user := CreateBaseUser(db, request);
  }

  /** The factory entry point: picks the creator from the requested role and delegates to it. */
  method CreateUser(db: Db, data: UserCreate) returns (user: User)
    requires db.Valid()
    modifies db`users, db`nextUserId
    ensures db.Valid()
    ensures user.role == ResolveRole(data) && user.role != Admin
    ensures user.email == data.email && user.username == data.username && user.fullName == data.fullName
    ensures user.hashedPassword == HashOf(data.password)
    ensures user.isActive && !user.isBanned
    ensures db.users == old(db.users)[old(db.nextUserId) := user]
    ensures db.nextUserId == old(db.nextUserId) + 1
  {
    var creator := ChooseCreator(data);
    user := CreateWith(db, creator, data);
  }
}
