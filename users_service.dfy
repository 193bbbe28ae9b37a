/**
 * The user lifecycle service: create, list, get, update and delete over one
 * collection of user records, hashing passwords with an injected strategy.
 */
module Users {
  import opened Common
  import opened Store
  import opened QueryOptions

  const PASSWORD := "password"

  /**
   * A request body: its own properties in order, each with its value;
   * `None` is a property whose value is `undefined`. A JavaScript object
   * never has two properties of one name (`DistinctKeys`).
   */
  type Dto = seq<(string, Option<string>)>

  predicate DistinctKeys(dto: Dto)
  {
    forall i, j :: 0 <= i < j < |dto| ==> dto[i].0 != dto[j].0
  }

  predicate HasKey(dto: Dto, k: string)
  {
    exists i :: 0 <= i < |dto| && dto[i].0 == k
  }

  predicate EqualOnKey(a: Record, b: Record, k: string)
  {
    (k in a <==> k in b) && (k in a ==> a[k] == b[k])
  }

  /** `dto[k]`: the value of property `k`, `None` when it is missing or `undefined`. */
  function Property(dto: Dto, k: string): (v: Option<string>)
    ensures v.Some? ==> HasKey(dto, k)
    ensures forall i :: 0 <= i < |dto| && dto[i].0 == k && (forall j :: i < j < |dto| ==> dto[j].0 != k) ==> v == dto[i].1
  {
    if dto == [] then None
    else if dto[|dto| - 1].0 == k then dto[|dto| - 1].1
    else Property(dto[..|dto| - 1], k)
  }

  /** `new Model(dto)`: the schema paths the body gives a value to. */
  function NewDocument(dto: Dto): (doc: Record)
    ensures doc.Keys <= SCHEMA_FIELDS
    ensures forall k :: k in SCHEMA_FIELDS ==> FieldMatches(doc, k, Property(dto, k))
  {
    map k | k in SCHEMA_FIELDS && Property(dto, k).Some? :: Property(dto, k).value
  }

  /**
   * One round of `update`'s loop over the body: a property other than the
   * password is assigned as it is; a non-empty password replaces the hash.
   */
  function UpdateStep(doc: Document, prop: string, value: Option<string>, encrypt: string -> string): (d: Document)
    ensures prop != PASSWORD && prop in SCHEMA_FIELDS ==>
      FieldMatches(d.fields, prop, value) && d.modified == doc.modified + {prop}
    ensures prop != PASSWORD && prop !in SCHEMA_FIELDS ==> d == doc
    ensures prop == PASSWORD && Truthy(value) ==>
      PASSWORD_HASH in d.fields && d.fields[PASSWORD_HASH] == encrypt(value.value)
      && d.modified == doc.modified + {PASSWORD_HASH}
    ensures prop == PASSWORD && !Truthy(value) ==> d == doc
    ensures prop != PASSWORD_HASH && prop != PASSWORD ==> EqualOnKey(d.fields, doc.fields, PASSWORD_HASH)
    ensures forall k :: k != PASSWORD_HASH && (k != prop || prop == PASSWORD) ==> EqualOnKey(d.fields, doc.fields, k)
  {
    if prop != PASSWORD then doc.Set(prop, value)
    else if Truthy(value) then doc.Set(PASSWORD_HASH, Some(encrypt(value.value)))
    else doc
  }

  /** The document after `update`'s loop has run over the whole body. */
  function ApplyUpdate(doc: Document, dto: Dto, encrypt: string -> string): (d: Document)
    ensures doc.modified <= d.modified <= doc.modified + SCHEMA_FIELDS
    ensures d.fields.Keys <= doc.fields.Keys + SCHEMA_FIELDS
  {
    if dto == [] then doc
    else
      var last := dto[|dto| - 1];
      UpdateStep(ApplyUpdate(doc, dto[..|dto| - 1], encrypt), last.0, last.1, encrypt)
  }

  /** The record `update` stores in place of `r`. */
  function Updated(r: Record, dto: Dto, encrypt: string -> string): (u: Record)
    ensures u.Keys <= r.Keys + SCHEMA_FIELDS
    ensures forall k :: k !in SCHEMA_FIELDS ==> EqualOnKey(u, r, k)
  {
    ApplyUpdateKeeps(Document(r, {}), dto, encrypt, "");
    forall k | k !in SCHEMA_FIELDS ensures EqualOnKey(ApplyUpdate(Document(r, {}), dto, encrypt).fields, r, k) {
      ApplyUpdateKeeps(Document(r, {}), dto, encrypt, k);
    }
    ApplyUpdate(Document(r, {}), dto, encrypt).fields
  }

  /** The update assigns schema paths only, and a path it does not assign keeps its value. */
  lemma {:induction false} ApplyUpdateKeeps(doc: Document, dto: Dto, encrypt: string -> string, k: string)
    ensures var d := ApplyUpdate(doc, dto, encrypt);
      doc.modified <= d.modified <= doc.modified + SCHEMA_FIELDS
      && d.fields.Keys <= doc.fields.Keys + SCHEMA_FIELDS
      && (k !in d.modified ==> EqualOnKey(d.fields, doc.fields, k))
  {
    if dto != [] {
      ApplyUpdateKeeps(doc, dto[..|dto| - 1], encrypt, k);
    }
  }

  /** What the update assigns does not depend on the fields it started from. */
  lemma {:induction false} ApplyUpdateDetermined(d1: Document, d2: Document, dto: Dto, encrypt: string -> string, k: string)
    requires d1.modified == d2.modified
    ensures ApplyUpdate(d1, dto, encrypt).modified == ApplyUpdate(d2, dto, encrypt).modified
    ensures k in ApplyUpdate(d1, dto, encrypt).modified - d1.modified ==>
      EqualOnKey(ApplyUpdate(d1, dto, encrypt).fields, ApplyUpdate(d2, dto, encrypt).fields, k)
  {
    if dto != [] {
      ApplyUpdateDetermined(d1, d2, dto[..|dto| - 1], encrypt, k);
    }
  }

  /** One key of `SaveAfterUpdate`. */
  lemma SaveAfterUpdateOn(stored: Record, dto: Dto, encrypt: string -> string, k: string)
    ensures EqualOnKey(Save(stored, ApplyUpdate(Document(stored - HIDDEN, {}), dto, encrypt)), Updated(stored, dto, encrypt), k)
  {
    ApplyUpdateKeeps(Document(stored, {}), dto, encrypt, k);
    ApplyUpdateDetermined(Document(stored - HIDDEN, {}), Document(stored, {}), dto, encrypt, k);
  }

  /**
   * Saving the document loaded without the hidden fields, after the loop,
   * stores the same record as running the loop on the stored record itself.
   */
  lemma SaveAfterUpdate(stored: Record, dto: Dto, encrypt: string -> string)
    ensures Save(stored, ApplyUpdate(Document(stored - HIDDEN, {}), dto, encrypt)) == Updated(stored, dto, encrypt)
  {
    var saved := Save(stored, ApplyUpdate(Document(stored - HIDDEN, {}), dto, encrypt));
    var want := Updated(stored, dto, encrypt);
    forall k ensures k in saved.Keys <==> k in want.Keys {
      SaveAfterUpdateOn(stored, dto, encrypt, k);
    }
    assert saved.Keys == want.Keys;
    forall k | k in saved ensures saved[k] == want[k] {
      SaveAfterUpdateOn(stored, dto, encrypt, k);
    }
  }

  lemma {:induction false} PropertyAbsent(dto: Dto, k: string)
    requires !HasKey(dto, k)
    ensures Property(dto, k) == None
  {
    if dto != [] {
      assert !HasKey(dto[..|dto| - 1], k);
      PropertyAbsent(dto[..|dto| - 1], k);
    }
  }

  /**
   * A schema field the body names gets the body's value verbatim
   * (`undefined` removes it). This includes `passwordHash` itself, which the
   * caller thereby sets directly, unless a non-empty password comes after it.
   */
  lemma {:induction false} UpdateCopiesField(doc: Document, dto: Dto, encrypt: string -> string, i: nat)
    requires DistinctKeys(dto) && i < |dto|
    requires dto[i].0 in SCHEMA_FIELDS
    requires dto[i].0 == PASSWORD_HASH ==> forall j :: i < j < |dto| && dto[j].0 == PASSWORD ==> !Truthy(dto[j].1)
    ensures FieldMatches(ApplyUpdate(doc, dto, encrypt).fields, dto[i].0, dto[i].1)
  {
    var prefix := dto[..|dto| - 1];
    if i < |dto| - 1 {
      assert DistinctKeys(prefix);
      UpdateCopiesField(doc, prefix, encrypt, i);
      assert dto[|dto| - 1].0 != dto[i].0;
    }
  }

  /**
   * A body naming `passwordHash` and no password sets the stored hash to
   * the caller's value: nothing between the request and `update` strips it.
   */
  lemma UpdateAcceptsCallerHash(r: Record, dto: Dto, encrypt: string -> string, hash: string)
    requires DistinctKeys(dto) && !HasKey(dto, PASSWORD)
    requires Property(dto, PASSWORD_HASH) == Some(hash)
    ensures var u := Updated(r, dto, encrypt); PASSWORD_HASH in u && u[PASSWORD_HASH] == hash
  {
    var i :| 0 <= i < |dto| && dto[i].0 == PASSWORD_HASH;
    UpdateCopiesField(Document(r, {}), dto, encrypt, i);
  }

  /**
   * A non-empty password that no `passwordHash` property follows sets the
   * hash to its encryption, whatever the body assigned to the hash before it.
   */
  lemma {:induction false} UpdatePasswordOverridesHash(doc: Document, dto: Dto, encrypt: string -> string, i: nat)
    requires DistinctKeys(dto) && i < |dto|
    requires dto[i].0 == PASSWORD && Truthy(dto[i].1)
    requires forall j :: i < j < |dto| ==> dto[j].0 != PASSWORD_HASH
    ensures var d := ApplyUpdate(doc, dto, encrypt);
      PASSWORD_HASH in d.fields && d.fields[PASSWORD_HASH] == encrypt(dto[i].1.value)
  {
    var prefix := dto[..|dto| - 1];
    if i < |dto| - 1 {
      assert DistinctKeys(prefix);
      UpdatePasswordOverridesHash(doc, prefix, encrypt, i);
      assert dto[|dto| - 1].0 != PASSWORD;
    }
  }

  /** A field the body does not name keeps its value, the hash aside. */
  lemma {:induction false} UpdateKeepsUnnamed(doc: Document, dto: Dto, encrypt: string -> string, k: string)
    requires !HasKey(dto, k) && k != PASSWORD_HASH
    ensures EqualOnKey(ApplyUpdate(doc, dto, encrypt).fields, doc.fields, k)
  {
    if dto != [] {
      assert !HasKey(dto[..|dto| - 1], k);
      UpdateKeepsUnnamed(doc, dto[..|dto| - 1], encrypt, k);
      assert dto[|dto| - 1].0 != k;
    }
  }

  /**
   * A non-empty password replaces the hash with its encryption; a missing,
   * `undefined` or empty password leaves the hash as it was.
   */
  lemma {:induction false} UpdatePasswordHash(doc: Document, dto: Dto, encrypt: string -> string)
    requires DistinctKeys(dto) && !HasKey(dto, PASSWORD_HASH)
    ensures var pw := Property(dto, PASSWORD); var d := ApplyUpdate(doc, dto, encrypt);
      && (Truthy(pw) ==> PASSWORD_HASH in d.fields && d.fields[PASSWORD_HASH] == encrypt(pw.value))
      && (!Truthy(pw) ==> EqualOnKey(d.fields, doc.fields, PASSWORD_HASH))
  {
    if dto != [] {
      var prefix := dto[..|dto| - 1];
      var last := dto[|dto| - 1];
      assert DistinctKeys(prefix) && !HasKey(prefix, PASSWORD_HASH);
      UpdatePasswordHash(doc, prefix, encrypt);
      if last.0 == PASSWORD {
        assert !HasKey(prefix, PASSWORD);
        PropertyAbsent(prefix, PASSWORD);
      } else {
        assert last.0 != PASSWORD_HASH;
      }
    }
  }

  /** The query `getList` runs: `find`, `skip`, `limit`, `sort` and `select`, then the filters. */
  function ListQuery(options: ListOptions): (q: Query)
    ensures q.conditions.Keys == set i | 0 <= i < |options.Filter()| :: options.Filter()[i][0]
    ensures q.skip == options.Offset() && q.limit == options.Limit() && q.limit <= MAX_LIMIT
    ensures q.sort == options.Order() && q.excluded == HIDDEN
  {
    FilterConditionsFields(options.Filter());
    Query(FilterConditions(options.Filter()), options.Offset(), options.Limit(), options.Order(), HIDDEN)
  }

  /**
   * A limit of 0 is not raised: page-less listing with `l=0` returns every
   * matching user, however many there are, past the intended maximum.
   */
  lemma ZeroLimitListsAll(table: map<Id, Record>, bound: nat, options: ListOptions, id: Id)
    requires options.dto.p == None && options.dto.l == Some(0)
    requires id < bound && id in table && Matches(table[id], FilterConditions(options.Filter()))
    ensures exists i :: 0 <= i < |Exec(table, bound, ListQuery(options)).value| && Exec(table, bound, ListQuery(options)).value[i].id == id
  {
    assert options.Offset() == 0 && options.Limit() == 0;
    ExecUnlimited(table, bound, ListQuery(options), id);
  }

  /** The test suite's stand-in strategy: the password followed by `-hashed`. */
  function MockEncrypt(password: string): (hash: string)
    ensures |hash| > |password| && hash[..|password|] == password
  {
    password + "-hashed"
  }

  /** The service over one collection; `encrypt` is the injected password strategy's. */
  class UsersService {
    var table: map<Id, Record>
    var nextId: Id
    const encrypt: string -> string

    /** Ids are below the next one to assign, and records hold schema paths only (never a plaintext password). */
    ghost predicate Valid()
      reads this
      ensures Valid() ==> forall id :: id in table ==> PASSWORD !in table[id]
    {
      && (forall id :: id in table ==> id < nextId)
      && (forall id :: id in table ==> table[id].Keys <= SCHEMA_FIELDS)
    }

    /** A service over an existing collection whose ids are all below `nextId`. */
    constructor (table: map<Id, Record>, nextId: Id, encrypt: string -> string)
      requires forall id :: id in table ==> id < nextId && table[id].Keys <= SCHEMA_FIELDS
      ensures Valid() && this.table == table && this.nextId == nextId && this.encrypt == encrypt
    {
      this.table := table;
      this.nextId := nextId;
      this.encrypt := encrypt;
    }

    /** `create`: stores the body's schema fields with the password's hash under a fresh id. */
    method Create(dto: Dto) returns (user: User)
      requires Valid()
      requires Property(dto, PASSWORD).Some?
      modifies this
      ensures Valid()
      ensures user.id !in old(table) && user.id == old(nextId) && nextId == old(nextId) + 1
      ensures user.fields == NewDocument(dto)[PASSWORD_HASH := encrypt(Property(dto, PASSWORD).value)]
      ensures table == old(table)[user.id := user.fields]
    {
      var doc := NewDocument(dto);
      doc := doc[PASSWORD_HASH := encrypt(Property(dto, PASSWORD).value)];
      user := User(nextId, doc);
      table := table[nextId := doc];
      nextId := nextId + 1;
    }

    /** `getList`: the page of matching users, without their hashes. */
    method GetList(options: ListOptions) returns (users: Result<seq<User>, StoreError>)
      requires Valid()
      ensures users == Exec(table, nextId, ListQuery(options))
      ensures users.Failure? <==> options.Offset() < 0
      ensures users.Success? ==> forall i :: 0 <= i < |users.value| ==>
        && users.value[i].id in table
        && users.value[i].fields == table[users.value[i].id] - HIDDEN
        && PASSWORD_HASH !in users.value[i].fields
        && Matches(table[users.value[i].id], FilterConditions(options.Filter()))
      ensures users.Success? && options.Limit() > 0 ==> |users.value| <= options.Limit()
    {
      var query := Query(map[], options.Offset(), options.Limit(), options.Order(), HIDDEN);
      query := options.ApplyFilters(query);
      assert query == ListQuery(options);
      users := Exec(table, nextId, query);
    }

    /** `getOne`: the user with the id, without the hash, or absent. */
    method GetOne(id: Id) returns (user: Option<User>)
      ensures user.None? <==> id !in table
      ensures user.Some? ==> user.value.id == id && user.value.fields == table[id] - HIDDEN
      ensures user.Some? ==> PASSWORD_HASH !in user.value.fields
    {
      if id in table {
        user := Some(User(id, table[id] - HIDDEN));
      } else {
        user := None;
      }
    }

    /**
     * `update`: absent for an unknown id, with nothing changed; otherwise
     * the loaded document is updated property by property and saved.
     */
    method Update(id: Id, dto: Dto) returns (user: Option<User>)
      requires Valid()
      modifies this
      ensures Valid() && nextId == old(nextId)
      ensures id !in old(table) ==> user == None && table == old(table)
      ensures id in old(table) ==>
        && table == old(table)[id := Updated(old(table)[id], dto, encrypt)]
        && user == Some(User(id, ApplyUpdate(Document(old(table)[id] - HIDDEN, {}), dto, encrypt).fields))
    {
      var found := GetOne(id);
      if found.None? {
        return None;
      }
      var doc := Document(found.value.fields, {});
      for i := 0 to |dto|
        invariant doc == ApplyUpdate(Document(table[id] - HIDDEN, {}), dto[..i], encrypt)
      {
        var (prop, value) := dto[i];
        if prop != PASSWORD {
          doc := doc.Set(prop, value);
        } else if Truthy(value) {
          doc := doc.Set(PASSWORD_HASH, Some(encrypt(value.value)));
        }
        assert dto[..i + 1][..i] == dto[..i];
      }
      assert dto[..|dto|] == dto;
      SaveAfterUpdate(table[id], dto, encrypt);
      ApplyUpdateKeeps(Document(table[id], {}), dto, encrypt, PASSWORD);
      table := table[id := Save(table[id], doc)];
      user := Some(User(id, doc.fields));
    }

    /** `delete`: whether a user with the id existed; afterwards none does and the others are untouched. */
    method Delete(id: Id) returns (existed: bool)
      requires Valid()
      modifies this
      ensures Valid() && nextId == old(nextId)
      ensures existed <==> id in old(table)
      ensures table == old(table) - {id}
    {
      existed := id in table;
      table := table - {id};
    }
  }

  /** The request body of the service tests: both names, the e-mail and the password. */
  function UserBody(first: string, last: string, email: string, password: Option<string>): Dto
  {
    [("firstName", Some(first)), ("lastName", Some(last)), ("email", Some(email)), (PASSWORD, password)]
  }

  lemma UserBodyProperties(first: string, last: string, email: string, password: Option<string>)
    ensures var dto := UserBody(first, last, email, password);
      && DistinctKeys(dto) && !HasKey(dto, PASSWORD_HASH)
      && Property(dto, "email") == Some(email) && Property(dto, PASSWORD) == password
  {
    var dto := UserBody(first, last, email, password);
    assert dto[2].0 == "email" && dto[3].0 == PASSWORD;
  }

  /** The service tests' `should create user`: the stored hash is the mock's encryption of the password. */
  method CreateScenario(first: string, last: string, email: string, password: string)
    returns (service: UsersService, created: User)
    ensures created.id in service.table && service.table[created.id] == created.fields
    ensures PASSWORD_HASH in created.fields && created.fields[PASSWORD_HASH] == MockEncrypt(password)
    ensures created.fields[PASSWORD_HASH] != password
    ensures "email" in created.fields && created.fields["email"] == email
  {
    service := new UsersService(map[], 0, MockEncrypt);
    created := service.Create(UserBody(first, last, email, Some(password)));
    UserBodyProperties(first, last, email, Some(password));
  }

  /**
   * The service tests' `should update user`: the names, the e-mail and the
   * hash take the body's values, and the new hash differs from the old one.
   */
  method UpdateScenario(first: string, last: string, email: string, password: string, newPassword: string)
    returns (updated: Option<User>, oldHash: string)
    requires newPassword != "" && newPassword != password
    ensures updated.Some? && "firstName" in updated.value.fields && updated.value.fields["firstName"] == first
    ensures updated.Some? && "lastName" in updated.value.fields && updated.value.fields["lastName"] == last
    ensures updated.Some? && "email" in updated.value.fields && updated.value.fields["email"] == email
    ensures updated.Some? && PASSWORD_HASH in updated.value.fields
    ensures updated.value.fields[PASSWORD_HASH] == MockEncrypt(newPassword) != oldHash
  {
    var service := new UsersService(map[], 0, MockEncrypt);
    var created := service.Create(UserBody("Fname", "Lname", "some@email.com", Some(password)));
    oldHash := created.fields[PASSWORD_HASH];
    var dto := UserBody(first, last, email, Some(newPassword));
    UserBodyProperties(first, last, email, Some(newPassword));
    var loaded := Document(service.table[created.id] - HIDDEN, {});
    updated := service.Update(created.id, dto);
    UpdateCopiesField(loaded, dto, MockEncrypt, 0);
    UpdateCopiesField(loaded, dto, MockEncrypt, 1);
    UpdateCopiesField(loaded, dto, MockEncrypt, 2);
    UpdatePasswordOverridesHash(loaded, dto, MockEncrypt, 3);
    assert MockEncrypt(newPassword)[..|newPassword|] == newPassword;
    assert MockEncrypt(password)[..|password|] == password;
  }

  /** The service tests' `should not change password`: an `undefined` password keeps the stored hash. */
  method KeepPasswordScenario(first: string, last: string, email: string, password: string)
    returns (service: UsersService, id: Id)
    ensures id in service.table && PASSWORD_HASH in service.table[id]
    ensures service.table[id][PASSWORD_HASH] == MockEncrypt(password)
    ensures "email" in service.table[id] && service.table[id]["email"] == email
  {
    service := new UsersService(map[], 0, MockEncrypt);
    var created := service.Create(UserBody("Fname", "Lname", "some@email.com", Some(password)));
    id := created.id;
    var before := service.table[id];
    var dto := UserBody(first, last, email, None);
    UserBodyProperties(first, last, email, None);
    var _ := service.Update(id, dto);
    UpdatePasswordHash(Document(before, {}), dto, MockEncrypt);
    UpdateCopiesField(Document(before, {}), dto, MockEncrypt, 2);
  }

  /**
   * The service tests' `should not update user` and `should delete user`:
   * an unknown id updates nothing; deleting reports whether the user existed.
   */
  method MissingScenario(password: string) returns (missing: Option<User>, first: bool, second: bool)
    ensures missing == None && first && !second
  {
    var service := new UsersService(map[], 0, MockEncrypt);
    var created := service.Create(UserBody("Fname", "Lname", "some@email.com", Some(password)));
    missing := service.Update(created.id + 1, UserBody("user", "test", "user.test@email.com", Some("xyz")));
    first := service.Delete(created.id);
    second := service.Delete(created.id);
  }
}
