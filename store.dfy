/**
 * The document store behind the service, reduced to what the service relies
 * on: a table of records keyed by id, the query a chain of
 * `find().skip().limit().sort().select().where()` calls builds, what running
 * that query returns, and a loaded document whose assignments are tracked
 * until `save()` writes them back.
 */
module Store {
  import opened Common

  /** A store-assigned record identifier. */
  type Id = nat

  /** A stored document: field name to value. */
  type Record = map<string, string>

  const PASSWORD_HASH := "passwordHash"
  const VERSION_KEY := "__v"

  /** The fields `.select('-passwordHash -__v')` leaves out. */
  const HIDDEN: set<string> := {PASSWORD_HASH, VERSION_KEY}

  /** The paths of the user schema; a strict schema ignores assignments to any other. */
  const SCHEMA_FIELDS: set<string> := {"firstName", "lastName", "email", PASSWORD_HASH}

  /** A record together with its identifier, as queries return it. */
  datatype User = User(id: Id, fields: Record)

  /**
   * A built query: the equality conditions of `where`, the `skip` and
   * `limit` counts, the `sort` string and the fields `select` excludes.
   */
  datatype Query = Query(
    conditions: map<string, Option<string>>,
    skip: int,
    limit: int,
    sort: Option<string>,
    excluded: set<string>)
  {
    /** `query.where({[field]: value})`: a later condition on a field replaces an earlier one. */
    function Where(field: string, value: Option<string>): (q: Query)
      ensures q.conditions.Keys == conditions.Keys + {field} && q.conditions[field] == value
      ensures forall f :: f in conditions && f != field ==> q.conditions[f] == conditions[f]
      ensures q.skip == skip && q.limit == limit && q.sort == sort && q.excluded == excluded
    {
      this.(conditions := conditions[field := value])
    }
  }

  datatype StoreError = NegativeSkip

  /** `r[field]` as a condition compares it: a missing field reads as null. */
  function Lookup(r: Record, field: string): Option<string>
  {
    if field in r then Some(r[field]) else None
  }

  /**
   * Equality with a string value holds when the field has that value;
   * equality with `undefined` (sent as null) holds when the field is missing.
   */
  predicate FieldMatches(r: Record, field: string, value: Option<string>): (b: bool)
    ensures b <==> Lookup(r, field) == value
  {
    match value
    case Some(v) => field in r && r[field] == v
    case None => field !in r
  }

  /** A record matches a query when it meets every condition; no conditions match every record. */
  predicate Matches(r: Record, conditions: map<string, Option<string>>): (b: bool)
    ensures b <==> forall field :: field in conditions ==> Lookup(r, field) == conditions[field]
    ensures conditions == map[] ==> b
  {
    forall field :: field in conditions ==> FieldMatches(r, field, conditions[field])
  }

  /** The matching users with an id below `bound`, in ascending id order. */
  function Matching(table: map<Id, Record>, conditions: map<string, Option<string>>, bound: nat): (users: seq<User>)
    ensures forall i :: 0 <= i < |users| ==>
      users[i].id < bound && users[i].id in table && users[i].fields == table[users[i].id]
      && Matches(table[users[i].id], conditions)
    ensures forall i, j :: 0 <= i < j < |users| ==> users[i].id < users[j].id
  {
    if bound == 0 then []
    else
      var before := Matching(table, conditions, bound - 1);
      var id := bound - 1;
      if id in table && Matches(table[id], conditions) then before + [User(id, table[id])] else before
  }

  /** Every matching record below the bound is among the matching users. */
  lemma {:induction false} MatchingComplete(table: map<Id, Record>, conditions: map<string, Option<string>>, bound: nat, id: Id)
    requires id < bound && id in table && Matches(table[id], conditions)
    ensures exists i :: 0 <= i < |Matching(table, conditions, bound)| && Matching(table, conditions, bound)[i].id == id
  {
    var users := Matching(table, conditions, bound);
    if id == bound - 1 {
      assert users[|users| - 1].id == id;
    } else {
      MatchingComplete(table, conditions, bound - 1, id);
      var i :| 0 <= i < |Matching(table, conditions, bound - 1)| && Matching(table, conditions, bound - 1)[i].id == id;
      assert users[i].id == id;
    }
  }

  /**
   * Skipping `skip` users and keeping `limit` of the rest; a limit of 0
   * keeps all of them and a negative limit keeps as many as its magnitude.
   */
  function Window(users: seq<User>, skip: nat, limit: int): (w: seq<User>)
    ensures skip <= |users| && (limit == 0 || |users| - skip <= Abs(limit)) ==> |w| == |users| - skip
    ensures skip <= |users| && limit != 0 && Abs(limit) < |users| - skip ==> |w| == Abs(limit)
    ensures |users| < skip ==> w == []
    ensures forall i :: 0 <= i < |w| ==> skip + i < |users| && w[i] == users[skip + i]
  {
    var rest := if skip <= |users| then users[skip..] else [];
    if limit == 0 || Abs(limit) >= |rest| then rest else rest[..Abs(limit)]
  }

  /** What running the query returns: the window over the matching users, with the excluded fields removed. */
  function Exec(table: map<Id, Record>, bound: nat, q: Query): (r: Result<seq<User>, StoreError>)
    ensures r.Failure? <==> q.skip < 0
    ensures r.Success? ==> forall i :: 0 <= i < |r.value| ==>
      r.value[i].id in table && r.value[i].fields == table[r.value[i].id] - q.excluded
      && Matches(table[r.value[i].id], q.conditions)
    ensures r.Success? && q.limit != 0 ==> |r.value| <= Abs(q.limit)
  {
    if q.skip < 0 then Failure(NegativeSkip)
    else
      var w := Window(Matching(table, q.conditions, bound), q.skip, q.limit);
      Success(seq(|w|, i requires 0 <= i < |w| => User(w[i].id, w[i].fields - q.excluded)))
  }

  /**
   * The returned users are the matching users from position `skip` on, in
   * ascending id order, as many as the limit allows.
   */
  lemma ExecWindow(table: map<Id, Record>, bound: nat, q: Query)
    requires q.skip >= 0
    ensures var r := Exec(table, bound, q).value; var m := Matching(table, q.conditions, bound);
      && (q.skip <= |m| && (q.limit == 0 || |m| - q.skip <= Abs(q.limit)) ==> |r| == |m| - q.skip)
      && (q.skip <= |m| && q.limit != 0 && Abs(q.limit) < |m| - q.skip ==> |r| == Abs(q.limit))
      && (|m| < q.skip ==> r == [])
      && (forall i :: 0 <= i < |r| ==> q.skip + i < |m| && r[i].id == m[q.skip + i].id)
      && (forall i, j :: 0 <= i < j < |r| ==> r[i].id < r[j].id)
  {
  }

  /** With no skip and a limit of 0 every matching record below the bound is returned. */
  lemma ExecUnlimited(table: map<Id, Record>, bound: nat, q: Query, id: Id)
    requires q.skip == 0 && q.limit == 0
    requires id < bound && id in table && Matches(table[id], q.conditions)
    ensures exists i :: 0 <= i < |Exec(table, bound, q).value| && Exec(table, bound, q).value[i].id == id
  {
    MatchingComplete(table, q.conditions, bound, id);
    var m := Matching(table, q.conditions, bound);
    var i :| 0 <= i < |m| && m[i].id == id;
    assert Exec(table, bound, q).value[i].id == id;
  }

  /** A document loaded from the store: its fields and the paths assigned since loading. */
  datatype Document = Document(fields: Record, modified: set<string>)
  {
    /** `doc[path] = value`: `undefined` unsets the path; a path outside the schema is ignored. */
    function Set(path: string, value: Option<string>): (d: Document)
      ensures path in SCHEMA_FIELDS ==> d.modified == modified + {path} && FieldMatches(d.fields, path, value)
      ensures path !in SCHEMA_FIELDS ==> d == this
      ensures forall k :: k != path ==> (k in d.fields <==> k in fields) && (k in fields ==> d.fields[k] == fields[k])
    {
      if path !in SCHEMA_FIELDS then this
      else
        match value
        case Some(v) => Document(fields[path := v], modified + {path})
        case None => Document(fields - {path}, modified + {path})
    }
  }

  /** `doc.save()`: the assigned paths are written over the stored record; the others keep their stored values. */
  function Save(stored: Record, doc: Document): (r: Record)
    ensures forall k :: k in doc.modified ==> (k in r <==> k in doc.fields) && (k in r ==> r[k] == doc.fields[k])
    ensures forall k :: k !in doc.modified ==> (k in r <==> k in stored) && (k in r ==> r[k] == stored[k])
  {
    map k | k in (stored.Keys - doc.modified) + (doc.fields.Keys * doc.modified) ::
      if k in doc.modified then doc.fields[k] else stored[k]
  }
}
