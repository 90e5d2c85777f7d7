/**
 * The user service: the registry of users and the ownership records that tie
 * an Imgur image (its hash, delete hash and URL) to the user who uploaded it.
 * The two repository tables are sequences in insertion order; the repository's
 * derived queries are filters over them. Each service method is one atomic
 * step on the tables.
 */
module Ownership {
  import opened Wrappers

  /** The record's creation time; the clock is not modelled, so the caller passes it in. */
  type Timestamp = int

  // ---------------------------------------------------------------------------
  // Entities and the shapes the service returns
  // ---------------------------------------------------------------------------

  /** A row of the users table; `password` holds the encoder's output. */
  datatype User = User(id: nat, username: string, password: string, email: string)

  /** A row of the user_images table. */
  datatype UserImage = UserImage(id: nat, owner: User, imageHash: string, deleteHash: string,
                                 imageUrl: string, uploadDate: Timestamp)

  /** The user transfer object; `password` is null (None) in everything the service returns. */
  datatype UserDto = UserDto(username: string, password: Option<string>, email: string)

  /** The public view of an ownership record. It has no place for the delete hash. */
  datatype ImageView = ImageView(imageHash: string, imageUrl: string, uploadDate: Timestamp,
                                 metadata: Option<map<string, string>>)

  /**
   * The exceptions the service lets escape. The first two are the
   * DuplicateResourceException and UserNotFoundException the service wraps
   * in a RuntimeException; the last is the repository's complaint when a
   * single-result query finds more than one row.
   */
  datatype ServiceError =
    | DuplicateResource(message: string)
    | UserNotFound(message: string)
    | IncorrectResultSize

  const UsernameExists: string := "Username already exists"
  const EmailExists: string := "Email already exists"

  /** The answer of a query that returns at most one row: null, the row, or an exception. */
  datatype Lookup<T> = NotFound | Found(value: T) | MultipleResults

  function MapLookup<T, U>(l: Lookup<T>, f: T -> U): Lookup<U>
  {
    match l
    case NotFound => NotFound
    case Found(v) => Found(f(v))
    case MultipleResults => MultipleResults
  }

  // ---------------------------------------------------------------------------
  // Filters (the repository's derived queries)
  // ---------------------------------------------------------------------------

  /** The elements of s satisfying p, in the order of s. */
  function Filter<T>(s: seq<T>, p: T -> bool): seq<T>
    decreases |s|
  {
    if s == [] then [] else Filter(s[..|s| - 1], p) + (if p(s[|s| - 1]) then [s[|s| - 1]] else [])
  }

  /** Filtering distributes over concatenation: a filter keeps the order of the table. */
  lemma {:induction false} FilterConcat<T>(a: seq<T>, b: seq<T>, p: T -> bool)
    ensures Filter(a + b, p) == Filter(a, p) + Filter(b, p)
    decreases |b|
  {
    if b == [] {
      assert a + b == a;
    } else {
      var b' := b[..|b| - 1];
      assert (a + b)[..|a + b| - 1] == a + b';
      assert (a + b)[|a + b| - 1] == b[|b| - 1];
      FilterConcat(a, b', p);
    }
  }

  /** An element is in the filtered sequence exactly when it is in the table and satisfies p. */
  lemma {:induction false} FilterMembership<T>(s: seq<T>, p: T -> bool, x: T)
    ensures x in Filter(s, p) <==> x in s && p(x)
    decreases |s|
  {
    if s != [] {
      var s' := s[..|s| - 1];
      assert s == s' + [s[|s| - 1]];
      FilterMembership(s', p, x);
    }
  }

  /** A filter that keeps everything is the identity. */
  lemma {:induction false} FilterKeepsAll<T>(s: seq<T>, p: T -> bool)
    requires forall x :: x in s ==> p(x)
    ensures Filter(s, p) == s
    decreases |s|
  {
    if s != [] {
      var s' := s[..|s| - 1];
      assert s == s' + [s[|s| - 1]];
      FilterKeepsAll(s', p);
    }
  }

  /** Two filters commute. */
  lemma {:induction false} FilterCommute<T>(s: seq<T>, p: T -> bool, q: T -> bool)
    ensures Filter(Filter(s, p), q) == Filter(Filter(s, q), p)
    decreases |s|
  {
    if s != [] {
      var s' := s[..|s| - 1];
      var x := s[|s| - 1];
      FilterCommute(s', p, q);
      FilterConcat(Filter(s', p), if p(x) then [x] else [], q);
      FilterConcat(Filter(s', q), if q(x) then [x] else [], p);
      assert Filter(if p(x) then [x] else [], q) == if p(x) && q(x) then [x] else [] by {
        if p(x) { assert [x][..0] == []; }
      }
      assert Filter(if q(x) then [x] else [], p) == if p(x) && q(x) then [x] else [] by {
        if q(x) { assert [x][..0] == []; }
      }
    }
  }

  function OwnedBy(username: string): UserImage -> bool
  {
    (r: UserImage) => r.owner.username == username
  }

  function OwnedWithHash(username: string, imageHash: string): UserImage -> bool
  {
    (r: UserImage) => r.owner.username == username && r.imageHash == imageHash
  }

  function Named(username: string): User -> bool
  {
    (u: User) => u.username == username
  }

  function NotId(id: nat): UserImage -> bool
  {
    (r: UserImage) => r.id != id
  }

  /** UserImageRepository.findByUserUsername: the records whose owner has that username. */
  function FindByUserUsername(images: seq<UserImage>, username: string): seq<UserImage>
  {
    Filter(images, OwnedBy(username))
  }

  /** UserImageRepository.findByUserUsernameAndImageHash, a single-result query. */
  function FindByUserUsernameAndImageHash(images: seq<UserImage>, username: string, imageHash: string): Lookup<UserImage>
  {
    var m := Filter(images, OwnedWithHash(username, imageHash));
    if |m| == 0 then NotFound else if |m| == 1 then Found(m[0]) else MultipleResults
  }

  /** UserRepository.findByUsername; usernames are unique, so the first match is the only one. */
  function FindByUsername(users: seq<User>, username: string): Option<User>
  {
    var m := Filter(users, Named(username));
    if |m| == 0 then None else Some(m[0])
  }

  predicate ExistsByUsername(users: seq<User>, username: string)
  {
    exists u :: u in users && u.username == username
  }

  predicate ExistsByEmail(users: seq<User>, email: string)
  {
    exists u :: u in users && u.email == email
  }

  /** JPA's delete of an entity: the row with that id goes. */
  function Delete(images: seq<UserImage>, record: UserImage): seq<UserImage>
  {
    Filter(images, NotId(record.id))
  }

  /** The user lookup finds a user exactly when one has that name, and what it finds is such a user. */
  lemma FindByUsernameSound(users: seq<User>, username: string)
    ensures FindByUsername(users, username).Some? <==> ExistsByUsername(users, username)
    ensures FindByUsername(users, username).Some? ==>
      FindByUsername(users, username).value in users && FindByUsername(users, username).value.username == username
  {
    var m := Filter(users, Named(username));
    if |m| > 0 {
      FilterMembership(users, Named(username), m[0]);
    }
    if ExistsByUsername(users, username) {
      var u :| u in users && u.username == username;
      FilterMembership(users, Named(username), u);
    }
  }

  /** A pair lookup finds nothing exactly when no record of that user has that hash. */
  lemma PairLookupNotFound(images: seq<UserImage>, username: string, imageHash: string)
    ensures FindByUserUsernameAndImageHash(images, username, imageHash).NotFound? <==>
      forall r :: r in images ==> !(r.owner.username == username && r.imageHash == imageHash)
  {
    var p := OwnedWithHash(username, imageHash);
    var m := Filter(images, p);
    if |m| > 0 {
      FilterMembership(images, p, m[0]);
    }
    forall r | r in images && r.owner.username == username && r.imageHash == imageHash
      ensures |m| > 0
    {
      FilterMembership(images, p, r);
    }
  }

  /**
   * No ownership leak: when every record with that hash belongs to someone
   * else, the pair lookup for this user finds nothing.
   */
  lemma OtherOwnersHashNotFound(images: seq<UserImage>, username: string, imageHash: string)
    requires forall r :: r in images && r.imageHash == imageHash ==> r.owner.username != username
    ensures FindByUserUsernameAndImageHash(images, username, imageHash) == NotFound
  {
    PairLookupNotFound(images, username, imageHash);
  }

  /** What a pair lookup finds is a record of that user with that hash. */
  lemma PairLookupFound(images: seq<UserImage>, username: string, imageHash: string)
    ensures FindByUserUsernameAndImageHash(images, username, imageHash).Found? ==>
      var r := FindByUserUsernameAndImageHash(images, username, imageHash).value;
      r in images && r.owner.username == username && r.imageHash == imageHash
  {
    var m := Filter(images, OwnedWithHash(username, imageHash));
    if |m| == 1 {
      FilterMembership(images, OwnedWithHash(username, imageHash), m[0]);
    }
  }

  // ---------------------------------------------------------------------------
  // Table invariants
  // ---------------------------------------------------------------------------

  /** No two records share an id. */
  ghost predicate IdsUnique(images: seq<UserImage>)
  {
    forall k, l :: 0 <= k < l < |images| ==> images[k].id != images[l].id
  }

  /**
   * What the tables always satisfy: generated ids are below the next id and
   * distinct; usernames and emails are distinct; every record's owner is a
   * registered user.
   */
  ghost predicate TablesValid(users: seq<User>, images: seq<UserImage>, nextUserId: nat, nextImageId: nat)
  {
    && (forall i :: 0 <= i < |users| ==> users[i].id < nextUserId)
    && (forall i, j :: 0 <= i < j < |users| ==>
          users[i].id != users[j].id && users[i].username != users[j].username && users[i].email != users[j].email)
    && (forall k :: 0 <= k < |images| ==> images[k].id < nextImageId && images[k].owner in users)
    && IdsUnique(images)
  }

  /**
   * At most one record per (username, imageHash). The code never enforces
   * this; it is what the single-result pair query presumes.
   */
  ghost predicate PairsUnique(images: seq<UserImage>)
  {
    forall k, l :: 0 <= k < l < |images| && images[k].owner.username == images[l].owner.username
      ==> images[k].imageHash != images[l].imageHash
  }

  /** With every pair unique, the pair query never fails with more than one row. */
  lemma {:induction false} PairsUniqueLookupDefinite(images: seq<UserImage>, username: string, imageHash: string)
    requires PairsUnique(images)
    ensures |Filter(images, OwnedWithHash(username, imageHash))| <= 1
    ensures !FindByUserUsernameAndImageHash(images, username, imageHash).MultipleResults?
    decreases |images|
  {
    var p := OwnedWithHash(username, imageHash);
    if images != [] {
      var s' := images[..|images| - 1];
      var x := images[|images| - 1];
      assert PairsUnique(s') by {
        forall k, l | 0 <= k < l < |s'| ensures s'[k] == images[k] && s'[l] == images[l] { }
      }
      PairsUniqueLookupDefinite(s', username, imageHash);
      if p(x) && |Filter(s', p)| == 1 {
        FilterMembership(s', p, Filter(s', p)[0]);
      }
    }
  }

  /** Deleting a record by id, with ids unique, removes that record and only it. */
  lemma DeleteRemovesOne(images: seq<UserImage>, k: nat)
    requires k < |images| && IdsUnique(images)
    ensures Delete(images, images[k]) == images[..k] + images[k + 1..]
  {
    FilterDropsOne(images, NotId(images[k].id), k);
  }

  /** A filter that rejects exactly the element at position k removes it and keeps the rest in order. */
  lemma {:induction false} FilterDropsOne<T>(s: seq<T>, p: T -> bool, k: nat)
    requires k < |s| && !p(s[k])
    requires forall i :: 0 <= i < |s| && i != k ==> p(s[i])
    ensures Filter(s, p) == s[..k] + s[k + 1..]
    decreases |s|
  {
    var s' := s[..|s| - 1];
    if k == |s| - 1 {
      forall x | x in s' ensures p(x) {
        var i :| 0 <= i < |s'| && s'[i] == x;
        assert s[i] == x;
      }
      FilterKeepsAll(s', p);
      assert s[..k] + s[k + 1..] == s';
    } else {
      FilterDropsOne(s', p, k);
      assert s[..k] + s[k + 1..] == s'[..k] + s'[k + 1..] + [s[|s| - 1]];
    }
  }

  /** Appending a record extends each filtered query by that record if it qualifies. */
  lemma FilterAppend<T>(s: seq<T>, x: T, p: T -> bool)
    ensures Filter(s + [x], p) == Filter(s, p) + (if p(x) then [x] else [])
  {
  }

  /**
   * The pair lookup after one more record is saved: a fresh pair is now
   * found, and an existing one now has two rows.
   */
  lemma LookupAfterSave(images: seq<UserImage>, rec: UserImage, username: string, imageHash: string)
    requires rec.owner.username == username && rec.imageHash == imageHash
    ensures FindByUserUsernameAndImageHash(images, username, imageHash).NotFound? ==>
      FindByUserUsernameAndImageHash(images + [rec], username, imageHash) == Found(rec)
    ensures !FindByUserUsernameAndImageHash(images, username, imageHash).NotFound? ==>
      FindByUserUsernameAndImageHash(images + [rec], username, imageHash) == MultipleResults
  {
  }

  /** Saving a record leaves every other pair's lookup as it was. */
  lemma OtherLookupsAfterSave(images: seq<UserImage>, rec: UserImage, username: string, imageHash: string)
    requires !(rec.owner.username == username && rec.imageHash == imageHash)
    ensures FindByUserUsernameAndImageHash(images + [rec], username, imageHash)
         == FindByUserUsernameAndImageHash(images, username, imageHash)
  {
  }

  /** A record saved for a fresh pair keeps every pair unique. */
  lemma PairsUniqueAfterSave(images: seq<UserImage>, rec: UserImage)
    requires PairsUnique(images)
    requires FindByUserUsernameAndImageHash(images, rec.owner.username, rec.imageHash).NotFound?
    ensures PairsUnique(images + [rec])
  {
    PairLookupNotFound(images, rec.owner.username, rec.imageHash);
    var s := images + [rec];
    forall k, l | 0 <= k < l < |s| && s[k].owner.username == s[l].owner.username
      ensures s[k].imageHash != s[l].imageHash
    {
      if l == |images| {
        assert s[k] in images;
      }
    }
  }

  /** Removing one record keeps pairs unique. */
  lemma PairsUniqueAfterRemoval(images: seq<UserImage>, k: nat)
    requires PairsUnique(images) && k < |images|
    ensures PairsUnique(images[..k] + images[k + 1..])
  {
    var s := images[..k] + images[k + 1..];
    forall a, b | 0 <= a < b < |s| && s[a].owner.username == s[b].owner.username
      ensures s[a].imageHash != s[b].imageHash
    {
      var a', b' := if a < k then a else a + 1, if b < k then b else b + 1;
      assert s[a] == images[a'] && s[b] == images[b'] && a' < b';
    }
  }

  /** After a found record is deleted, its pair is no longer found. */
  lemma LookupAfterDelete(images: seq<UserImage>, username: string, imageHash: string)
    requires IdsUnique(images)
    requires FindByUserUsernameAndImageHash(images, username, imageHash).Found?
    ensures FindByUserUsernameAndImageHash(Delete(images, FindByUserUsernameAndImageHash(images, username, imageHash).value),
                                           username, imageHash) == NotFound
  {
    var rec := FindByUserUsernameAndImageHash(images, username, imageHash).value;
    var p := OwnedWithHash(username, imageHash);
    var q := NotId(rec.id);
    FilterCommute(images, q, p);
    var m := Filter(images, p);
    assert |m| == 1 && m == [rec];
    assert Filter(m, q) == [] by {
      assert m == [] + [rec];
      assert m[..0] == [];
    }
  }

  /** Deleting a record of one user leaves every other user's list as it was. */
  lemma OtherUsersAfterDelete(images: seq<UserImage>, rec: UserImage, other: string)
    requires IdsUnique(images) && rec in images && rec.owner.username != other
    ensures FindByUserUsername(Delete(images, rec), other) == FindByUserUsername(images, other)
  {
    FilterCommute(images, NotId(rec.id), OwnedBy(other));
    forall x | x in Filter(images, OwnedBy(other)) ensures NotId(rec.id)(x) {
      FilterMembership(images, OwnedBy(other), x);
      var k :| 0 <= k < |images| && images[k] == x;
      var l :| 0 <= l < |images| && images[l] == rec;
      assert k != l;
    }
    FilterKeepsAll(Filter(images, OwnedBy(other)), NotId(rec.id));
  }

  // ---------------------------------------------------------------------------
  // Projections
  // ---------------------------------------------------------------------------

  /** convertToDTO: username and email, no password. */
  function ToUserDto(user: User): UserDto
  {
    UserDto(user.username, None, user.email)
  }

  /** convertToImageDTO: hash, URL and upload date; metadata unset, and no delete hash. */
  function ToImageView(record: UserImage): ImageView
  {
    ImageView(record.imageHash, record.imageUrl, record.uploadDate, None)
  }

  function Views(records: seq<UserImage>): seq<ImageView>
  {
    seq(|records|, i requires 0 <= i < |records| => ToImageView(records[i]))
  }

  /** A user's DTO does not depend on the stored password or the generated id. */
  lemma UserDtoHidesCredentials(user: User, password: string, id: nat)
    ensures ToUserDto(user.(password := password, id := id)) == ToUserDto(user)
    ensures ToUserDto(user).password.None?
  {
  }

  /** Two records that agree on everything except, possibly, the delete hash. */
  predicate SamePublic(x: UserImage, y: UserImage)
  {
    x.(deleteHash := y.deleteHash) == y
  }

  /** Two tables that agree record by record on everything except delete hashes. */
  ghost predicate SameButDeleteHashes(a: seq<UserImage>, b: seq<UserImage>)
  {
    |a| == |b| && forall i :: 0 <= i < |a| ==> SamePublic(a[i], b[i])
  }

  /** The owner/hash filters cannot tell two such tables apart. */
  lemma {:induction false} FilterIgnoresDeleteHash(a: seq<UserImage>, b: seq<UserImage>, username: string, hash: Option<string>)
    requires SameButDeleteHashes(a, b)
    ensures hash.None? ==> SameButDeleteHashes(Filter(a, OwnedBy(username)), Filter(b, OwnedBy(username)))
    ensures hash.Some? ==> SameButDeleteHashes(Filter(a, OwnedWithHash(username, hash.value)),
                                               Filter(b, OwnedWithHash(username, hash.value)))
    decreases |a|
  {
    if a != [] {
      var a', b' := a[..|a| - 1], b[..|b| - 1];
      assert SameButDeleteHashes(a', b') by {
        forall i | 0 <= i < |a'| ensures SamePublic(a'[i], b'[i]) { assert a'[i] == a[i] && b'[i] == b[i]; }
      }
      FilterIgnoresDeleteHash(a', b', username, hash);
      assert SamePublic(a[|a| - 1], b[|b| - 1]);
    }
  }

  /**
   * The views never reveal a delete hash: two tables that differ only in
   * delete hashes give every user the same list and every pair the same
   * single view.
   */
  lemma ViewsHideDeleteHash(a: seq<UserImage>, b: seq<UserImage>, username: string, imageHash: string)
    requires SameButDeleteHashes(a, b)
    ensures Views(FindByUserUsername(a, username)) == Views(FindByUserUsername(b, username))
    ensures MapLookup(FindByUserUsernameAndImageHash(a, username, imageHash), ToImageView)
         == MapLookup(FindByUserUsernameAndImageHash(b, username, imageHash), ToImageView)
  {
    FilterIgnoresDeleteHash(a, b, username, None);
    FilterIgnoresDeleteHash(a, b, username, Some(imageHash));
    var fa, fb := FindByUserUsername(a, username), FindByUserUsername(b, username);
    assert forall i :: 0 <= i < |fa| ==> Views(fa)[i] == ToImageView(fa[i]) == ToImageView(fb[i]) == Views(fb)[i];
    var ma := Filter(a, OwnedWithHash(username, imageHash));
    var mb := Filter(b, OwnedWithHash(username, imageHash));
    if |ma| == 1 {
      assert SamePublic(ma[0], mb[0]);
    }
  }

  /** The list view holds a view for exactly the records the user owns. */
  lemma ViewsOfUser(images: seq<UserImage>, username: string, v: ImageView)
    ensures v in Views(FindByUserUsername(images, username)) <==>
      exists r :: r in images && r.owner.username == username && v == ToImageView(r)
  {
    var f := FindByUserUsername(images, username);
    if v in Views(f) {
      var i :| 0 <= i < |f| && Views(f)[i] == v;
      FilterMembership(images, OwnedBy(username), f[i]);
    }
    if exists r :: r in images && r.owner.username == username && v == ToImageView(r) {
      var r :| r in images && r.owner.username == username && v == ToImageView(r);
      FilterMembership(images, OwnedBy(username), r);
      var i :| 0 <= i < |f| && f[i] == r;
      assert Views(f)[i] == v;
    }
  }

  /** Saving a record appends its view to its owner's list and changes no one else's. */
  lemma ViewsAfterSave(images: seq<UserImage>, rec: UserImage, username: string)
    ensures Views(FindByUserUsername(images + [rec], username))
         == Views(FindByUserUsername(images, username)) + (if rec.owner.username == username then [ToImageView(rec)] else [])
  {
  }

  // ---------------------------------------------------------------------------
  // The service
  // ---------------------------------------------------------------------------

  /** UserServiceImpl over the users and user_images tables, with the injected password encoder. */
  class UserService {
    /** PasswordEncoder.encode, uninterpreted; it sees the raw password, null included. */
    const encode: Option<string> -> string
    var users: seq<User>
    var images: seq<UserImage>
    var nextUserId: nat
    var nextImageId: nat

    ghost predicate Valid()
      reads this
    {
      TablesValid(users, images, nextUserId, nextImageId)
    }

    constructor (encode: Option<string> -> string)
      ensures Valid() && this.encode == encode
      ensures users == [] && images == []
    {
      this.encode := encode;
      users, images := [], [];
      nextUserId, nextImageId := 1, 1;
    }

    /**
     * registerUser: a taken username is refused first, then a taken email;
     * otherwise exactly one user is saved and its DTO returned.
     */
    method RegisterUser(dto: UserDto) returns (r: Result<UserDto, ServiceError>)
      requires Valid()
      modifies this
      ensures Valid()
      ensures images == old(images) && nextImageId == old(nextImageId)
      ensures ExistsByUsername(old(users), dto.username) ==>
        r == Err(DuplicateResource(UsernameExists)) && users == old(users) && nextUserId == old(nextUserId)
      ensures !ExistsByUsername(old(users), dto.username) && ExistsByEmail(old(users), dto.email) ==>
        r == Err(DuplicateResource(EmailExists)) && users == old(users) && nextUserId == old(nextUserId)
      ensures !ExistsByUsername(old(users), dto.username) && !ExistsByEmail(old(users), dto.email) ==>
        && users == old(users) + [User(old(nextUserId), dto.username, encode(dto.password), dto.email)]
        && nextUserId == old(nextUserId) + 1
        && r == Ok(UserDto(dto.username, None, dto.email))
      ensures r.Ok? ==> GetUserByUsername(dto.username) == r
    {
      if ExistsByUsername(users, dto.username) {
        return Err(DuplicateResource(UsernameExists));
      }
      if ExistsByEmail(users, dto.email) {
        return Err(DuplicateResource(EmailExists));
      }
      var user := User(nextUserId, dto.username, encode(dto.password), dto.email);
      users := users + [user];
      nextUserId := nextUserId + 1;
      r := Ok(ToUserDto(user));
      FindByUsernameSound(old(users), dto.username);
    }

    /** getUserByUsername: the user's DTO, or a user-not-found error. */
    function GetUserByUsername(username: string): (r: Result<UserDto, ServiceError>)
      reads this
    {
      match FindByUsername(users, username)
      case Some(u) => Ok(ToUserDto(u))
      case None => Err(UserNotFound("User not found: " + username))
    }

    /**
     * associateImageWithUser: an unknown username is refused and nothing is
     * saved; otherwise exactly one record is saved for that user and its
     * view, without the delete hash, returned. No duplicate check is made.
     */
    method AssociateImageWithUser(username: string, imageHash: string, deleteHash: string, imageUrl: string,
                                  now: Timestamp) returns (r: Result<ImageView, ServiceError>)
      requires Valid()
      modifies this
      ensures Valid()
      ensures users == old(users) && nextUserId == old(nextUserId)
      ensures FindByUsername(users, username).None? ==>
        r == Err(UserNotFound("User not found: " + username)) && images == old(images) && nextImageId == old(nextImageId)
      ensures FindByUsername(users, username).Some? ==>
        && images == old(images) + [UserImage(old(nextImageId), FindByUsername(users, username).value,
                                              imageHash, deleteHash, imageUrl, now)]
        && nextImageId == old(nextImageId) + 1
        && r == Ok(ImageView(imageHash, imageUrl, now, None))
    {
      var found := FindByUsername(users, username);
      if found.None? {
        return Err(UserNotFound("User not found: " + username));
      }
      FindByUsernameSound(users, username);
      var record := UserImage(nextImageId, found.value, imageHash, deleteHash, imageUrl, now);
      TablesValidAfterSave(users, images, nextUserId, nextImageId, record);
      images := images + [record];
      nextImageId := nextImageId + 1;
      r := Ok(ToImageView(record));
    }

    /** getUserImages: the views of the user's records, in table order, and nothing of anyone else's. */
    function GetUserImages(username: string): (r: seq<ImageView>)
      reads this
    {
      Views(FindByUserUsername(images, username))
    }

    /**
     * getUserImage: the view of the record for (username, imageHash); none
     * when the user has no such record, even if another user has that hash.
     */
    function GetUserImage(username: string, imageHash: string): (r: Lookup<ImageView>)
      reads this
    {
      MapLookup(FindByUserUsernameAndImageHash(images, username, imageHash), ToImageView)
    }

    /** getImageDeleteHash: the stored delete hash of the record for (username, imageHash), if there is one. */
    function GetImageDeleteHash(username: string, imageHash: string): (r: Lookup<string>)
      reads this
    {
      MapLookup(FindByUserUsernameAndImageHash(images, username, imageHash), (rec: UserImage) => rec.deleteHash)
    }

    /**
     * removeImageAssociation: deletes the record for (username, imageHash)
     * if there is one, and does nothing otherwise; either way the pair is not
     * found afterwards. Two rows for the pair make the lookup throw, and the
     * transaction changes nothing.
     */
    method RemoveImageAssociation(username: string, imageHash: string) returns (r: Result<(), ServiceError>)
      requires Valid()
      modifies this
      ensures Valid()
      ensures users == old(users) && nextUserId == old(nextUserId) && nextImageId == old(nextImageId)
      ensures old(FindByUserUsernameAndImageHash(images, username, imageHash)).NotFound? ==>
        r.Ok? && images == old(images)
      ensures old(FindByUserUsernameAndImageHash(images, username, imageHash)).MultipleResults? ==>
        r == Err(IncorrectResultSize) && images == old(images)
      ensures old(FindByUserUsernameAndImageHash(images, username, imageHash)).Found? ==>
        r.Ok? &&
        exists k :: 0 <= k < |old(images)| && old(images)[k] == old(FindByUserUsernameAndImageHash(images, username, imageHash)).value
                    && images == old(images)[..k] + old(images)[k + 1..]
      ensures r.Ok? ==> GetUserImage(username, imageHash) == NotFound && GetImageDeleteHash(username, imageHash) == NotFound
      ensures forall other :: other != username ==> GetUserImages(other) == old(GetUserImages(other))
      ensures old(PairsUnique(images)) ==> PairsUnique(images)
    {
      var found := FindByUserUsernameAndImageHash(images, username, imageHash);
      match found
      case NotFound =>
        r := Ok(());
      case MultipleResults =>
        r := Err(IncorrectResultSize);
      case Found(rec) =>
        var k := RemovalOfFound(users, images, nextUserId, nextImageId, username, imageHash);
        if PairsUnique(images) {
          PairsUniqueAfterRemoval(images, k);
        }
        images := Delete(images, rec);
        r := Ok(());
    }
  }

  /** Saving a record with the next id for a registered user keeps the tables valid. */
  lemma TablesValidAfterSave(users: seq<User>, images: seq<UserImage>, nextUserId: nat, nextImageId: nat, rec: UserImage)
    requires TablesValid(users, images, nextUserId, nextImageId)
    requires rec.id == nextImageId && rec.owner in users
    ensures TablesValid(users, images + [rec], nextUserId, nextImageId + 1)
  {
  }

  /** Removing one record keeps the tables valid. */
  lemma TablesValidAfterRemoval(users: seq<User>, images: seq<UserImage>, nextUserId: nat, nextImageId: nat, k: nat)
    requires TablesValid(users, images, nextUserId, nextImageId) && k < |images|
    ensures TablesValid(users, images[..k] + images[k + 1..], nextUserId, nextImageId)
  {
  }

  /**
   * Deleting the record the pair query found: it sat at some position k and
   * only it goes, the tables stay valid, the pair is no longer found and
   * no other user's records change.
   */
  lemma RemovalOfFound(users: seq<User>, images: seq<UserImage>, nextUserId: nat, nextImageId: nat,
                       username: string, imageHash: string) returns (k: nat)
    requires TablesValid(users, images, nextUserId, nextImageId)
    requires FindByUserUsernameAndImageHash(images, username, imageHash).Found?
    ensures k < |images| && images[k] == FindByUserUsernameAndImageHash(images, username, imageHash).value
    ensures Delete(images, images[k]) == images[..k] + images[k + 1..]
    ensures TablesValid(users, Delete(images, images[k]), nextUserId, nextImageId)
    ensures FindByUserUsernameAndImageHash(Delete(images, images[k]), username, imageHash) == NotFound
    ensures forall other :: other != username ==>
      FindByUserUsername(Delete(images, images[k]), other) == FindByUserUsername(images, other)
  {
    var rec := FindByUserUsernameAndImageHash(images, username, imageHash).value;
    PairLookupFound(images, username, imageHash);
    k :| 0 <= k < |images| && images[k] == rec;
    DeleteRemovesOne(images, k);
    LookupAfterDelete(images, username, imageHash);
    forall other | other != username
      ensures FindByUserUsername(Delete(images, rec), other) == FindByUserUsername(images, other)
    {
      OtherUsersAfterDelete(images, rec, other);
    }
    TablesValidAfterRemoval(users, images, nextUserId, nextImageId, k);
  }

  /** getUserByUsername succeeds exactly when a user has that name, and returns that user's DTO. */
  lemma GetUserByUsernameMeaning(service: UserService, username: string)
    ensures service.GetUserByUsername(username).Ok? <==> ExistsByUsername(service.users, username)
    ensures service.GetUserByUsername(username).Ok? ==>
      exists u :: u in service.users && u.username == username && service.GetUserByUsername(username).value == ToUserDto(u)
    ensures service.GetUserByUsername(username).Err? ==>
      service.GetUserByUsername(username).error == UserNotFound("User not found: " + username)
  {
    FindByUsernameSound(service.users, username);
  }

  /** getUserImages lists a view for exactly the records the user owns, one per record. */
  lemma GetUserImagesMeaning(service: UserService, username: string)
    ensures |service.GetUserImages(username)| == |FindByUserUsername(service.images, username)|
    ensures forall v :: v in service.GetUserImages(username) <==>
      exists rec :: rec in service.images && rec.owner.username == username && v == ToImageView(rec)
  {
    forall v ensures v in service.GetUserImages(username) <==>
      exists rec :: rec in service.images && rec.owner.username == username && v == ToImageView(rec)
    {
      ViewsOfUser(service.images, username, v);
    }
  }

  /**
   * getUserImage is null exactly when the user has no record with that hash,
   * even if another user has one; otherwise it is the view of such a record,
   * and while pairs are unique it never throws.
   */
  lemma GetUserImageMeaning(service: UserService, username: string, imageHash: string)
    ensures service.GetUserImage(username, imageHash).NotFound? <==>
      forall rec :: rec in service.images ==> !(rec.owner.username == username && rec.imageHash == imageHash)
    ensures service.GetUserImage(username, imageHash).Found? ==>
      exists rec :: rec in service.images && rec.owner.username == username && rec.imageHash == imageHash
                    && service.GetUserImage(username, imageHash).value == ToImageView(rec)
    ensures PairsUnique(service.images) ==> !service.GetUserImage(username, imageHash).MultipleResults?
  {
    PairLookupNotFound(service.images, username, imageHash);
    PairLookupFound(service.images, username, imageHash);
    if PairsUnique(service.images) {
      PairsUniqueLookupDefinite(service.images, username, imageHash);
    }
  }

  /**
   * getImageDeleteHash is null exactly when no record matches the pair;
   * otherwise it is the stored delete hash of a matching record, and while
   * pairs are unique it never throws.
   */
  lemma GetImageDeleteHashMeaning(service: UserService, username: string, imageHash: string)
    ensures service.GetImageDeleteHash(username, imageHash).NotFound? <==>
      forall rec :: rec in service.images ==> !(rec.owner.username == username && rec.imageHash == imageHash)
    ensures service.GetImageDeleteHash(username, imageHash).Found? ==>
      exists rec :: rec in service.images && rec.owner.username == username && rec.imageHash == imageHash
                    && service.GetImageDeleteHash(username, imageHash).value == rec.deleteHash
    ensures PairsUnique(service.images) ==> !service.GetImageDeleteHash(username, imageHash).MultipleResults?
  {
    PairLookupNotFound(service.images, username, imageHash);
    PairLookupFound(service.images, username, imageHash);
    if PairsUnique(service.images) {
      PairsUniqueLookupDefinite(service.images, username, imageHash);
    }
  }

  /** alice registers; a second registration under her name is refused and changes nothing. */
  method RegisterScenario(encode: Option<string> -> string)
  {
    var service := new UserService(encode);
    var reg := service.RegisterUser(UserDto("alice", Some("secret"), "alice@example.com"));
    assert reg == Ok(UserDto("alice", None, "alice@example.com"));
    var alice := service.users[0];
    assert service.users == [alice] && alice.username == "alice";
    var again := service.RegisterUser(UserDto("alice", Some("other"), "other@example.com"));
    assert again == Err(DuplicateResource(UsernameExists));
    assert service.users == [alice];
  }

  /**
   * With a single record in the table, its owner sees exactly that image and
   * its delete hash, and any other user asking for the same hash finds nothing.
   */
  lemma SingleRecordQueries(service: UserService, record: UserImage, other: string)
    requires service.images == [record] && other != record.owner.username
    ensures service.GetUserImages(record.owner.username) == [ToImageView(record)]
    ensures service.GetUserImage(record.owner.username, record.imageHash) == Found(ToImageView(record))
    ensures service.GetImageDeleteHash(record.owner.username, record.imageHash) == Found(record.deleteHash)
    ensures service.GetUserImage(other, record.imageHash) == NotFound
  {
    var owner, hash := record.owner.username, record.imageHash;
    assert [record][..0] == [];
    assert Filter([record], OwnedBy(owner)) == [record];
    assert Filter([record], OwnedWithHash(owner, hash)) == [record];
    assert Filter([record], OwnedWithHash(other, hash)) == [];
  }

  /**
   * alice gets image "p1" with delete hash "d1": her view of it carries no
   * delete hash, the stored delete hash is "d1", and bob cannot see it.
   */
  method UploadScenario(encode: Option<string> -> string, now: Timestamp)
  {
    var service := new UserService(encode);
    var reg := service.RegisterUser(UserDto("alice", Some("secret"), "alice@example.com"));
    var alice := service.users[0];
    assert service.users == [alice] && alice.username == "alice" && service.images == [];
    assert Filter([alice], Named("alice")) == [alice] by { assert [alice][..0] == []; }
    var view := service.AssociateImageWithUser("alice", "p1", "d1", "https://host/p1.jpg", now);
    assert view == Ok(ImageView("p1", "https://host/p1.jpg", now, None));
    var record := service.images[0];
    assert service.images == [record] && record.owner == alice && record.imageHash == "p1" && record.deleteHash == "d1";
    SingleRecordQueries(service, record, "bob");
    assert service.GetUserImages("alice") == [view.value];
    assert service.GetImageDeleteHash("alice", "p1") == Found("d1");
    assert service.GetUserImage("bob", "p1") == NotFound;
  }

  /** After alice's only image is removed, the pair is not found. */
  method RemoveScenario(encode: Option<string> -> string, now: Timestamp)
  {
    var service := new UserService(encode);
    var reg := service.RegisterUser(UserDto("alice", Some("secret"), "alice@example.com"));
    var alice := service.users[0];
    assert service.users == [alice] && alice.username == "alice" && service.images == [];
    assert Filter([alice], Named("alice")) == [alice] by { assert [alice][..0] == []; }
    var view := service.AssociateImageWithUser("alice", "p1", "d1", "https://host/p1.jpg", now);
    var record := service.images[0];
    assert service.images == [record];
    assert record.owner.username == "alice" && record.imageHash == "p1";
    assert Filter([record], OwnedWithHash("alice", "p1")) == [record] by { assert [record][..0] == []; }
    var removed := service.RemoveImageAssociation("alice", "p1");
    assert removed.Ok? && service.GetUserImage("alice", "p1") == NotFound;
  }
}
