/** Bulk creation of users (lib/repositories/userRepository.ts). */
module UserRepository {
  import opened Collections
  import opened Text
  import opened Batching
  import opened Tables
  import opened Store

  datatype UserInput = UserInput(id: int, name: string, email: string)

  function UserRow(u: UserInput): (int, User) {
    (u.id, User(u.name, u.email))
  }

  function UserRows(users: seq<UserInput>): seq<(int, User)> {
    MapSeq(users, UserRow)
  }

  /** The user both sync jobs synthesize for a referenced id: name
      "User {id}", email "user{id}@example.com". */
  function TemplatedUser(id: int): UserInput {
    UserInput(id, "User " + NumberToString(id), "user" + NumberToString(id) + "@example.com")
  }

  function TemplatedUsers(ids: seq<int>): (r: seq<UserInput>)
    ensures |r| == |ids| && forall i :: 0 <= i < |ids| ==> r[i].id == ids[i]
  {
    MapSeq(ids, TemplatedUser)
  }

  /** `createUsers(tx, users)`: batch by batch, `createMany` with
      `skipDuplicates`. It never fails. */
  method CreateUsers(tx: Database, users: seq<UserInput>, batchSetting: nat)
    modifies tx`users
    ensures tx.users == SkipInsert(old(tx.users), UserRows(users))
  {
    if |users| == 0 {
      return;
    }
    var chunks := Chunk(users, BatchSize(batchSetting));
    for i := 0 to |chunks|
      invariant tx.users == SkipInsert(old(tx.users), UserRows(Flatten(chunks[..i])))
    {
      SkipInsertChunk(old(tx.users), chunks, i, UserRow);
      tx.users := SkipInsert(tx.users, UserRows(chunks[i]));
    }
    assert chunks[..|chunks|] == chunks;
  }

  /** After `createUsers` every input id is a user, users that existed keep
      their fields, and a user it adds carries the name and email of an input
      with that id. */
  lemma CreateUsersSpec(stored: map<int, User>, users: seq<UserInput>)
    ensures forall i :: 0 <= i < |users| ==> users[i].id in SkipInsert(stored, UserRows(users))
    ensures forall id :: id in stored ==>
      id in SkipInsert(stored, UserRows(users)) && SkipInsert(stored, UserRows(users))[id] == stored[id]
    ensures forall id :: id in SkipInsert(stored, UserRows(users)) && id !in stored ==>
      exists u :: u in users && u.id == id && SkipInsert(stored, UserRows(users))[id] == User(u.name, u.email)
  {
    var rows := UserRows(users);
    SkipInsertSpec(stored, rows);
    forall i | 0 <= i < |users| ensures users[i].id in SkipInsert(stored, rows) {
      assert KeysOf(rows)[i] == users[i].id;
    }
    forall id | id in SkipInsert(stored, rows) && id !in stored
      ensures exists u :: u in users && u.id == id && SkipInsert(stored, rows)[id] == User(u.name, u.email)
    {
      var j :| 0 <= j < |rows| && rows[j] == (id, SkipInsert(stored, rows)[id]);
      assert users[j] in users;
    }
  }

  /** Calling `createUsers` twice with the same input leaves the store as
      after the first call. */
  lemma CreateUsersIdempotent(stored: map<int, User>, users: seq<UserInput>)
    ensures SkipInsert(SkipInsert(stored, UserRows(users)), UserRows(users))
         == SkipInsert(stored, UserRows(users))
  {
    SkipInsertIdempotent(stored, UserRows(users));
  }

  /** Users whose ids are all stored already write nothing; in particular the
      empty input writes nothing. */
  lemma CreateUsersNothingNew(stored: map<int, User>, users: seq<UserInput>)
    requires forall i :: 0 <= i < |users| ==> users[i].id in stored
    ensures SkipInsert(stored, UserRows(users)) == stored
  {
    SkipInsertPresent(stored, UserRows(users));
  }

  /** The users a sync job synthesizes for the user ids its snapshot
      references: one templated user per distinct id, in first-appearance
      order (the insertion order of the `allUsers` map). */
  function ReferencedUsers(ids: seq<int>): seq<UserInput> {
    TemplatedUsers(Distinct(ids))
  }

  /** One templated user per distinct referenced id, and no other. */
  lemma ReferencedUsersSpec(ids: seq<int>)
    ensures var users := ReferencedUsers(ids);
      && (forall i, j :: 0 <= i < j < |users| ==> users[i].id != users[j].id)
      && (forall id :: id in ids <==> exists i :: 0 <= i < |users| && users[i].id == id)
      && (forall i :: 0 <= i < |users| ==> users[i] == TemplatedUser(users[i].id))
  {
    var d := Distinct(ids);
    DistinctSpec(ids);
    forall id | id in ids ensures exists i :: 0 <= i < |d| && ReferencedUsers(ids)[i].id == id {
      assert id in d;
      var i :| 0 <= i < |d| && d[i] == id;
      assert ReferencedUsers(ids)[i].id == id;
    }
  }

  /** Creating the referenced users makes every referenced id a user and
      keeps the users that existed. */
  lemma ReferencedUsersStored(stored: map<int, User>, ids: seq<int>)
    ensures forall id :: id in ids ==> id in SkipInsert(stored, UserRows(ReferencedUsers(ids)))
    ensures forall id :: id in stored ==>
      id in SkipInsert(stored, UserRows(ReferencedUsers(ids))) &&
      SkipInsert(stored, UserRows(ReferencedUsers(ids)))[id] == stored[id]
  {
    ReferencedUsersSpec(ids);
    CreateUsersSpec(stored, ReferencedUsers(ids));
  }

  /** When every referenced id is already a user, creating them writes
      nothing. */
  lemma ReferencedUsersPresent(stored: map<int, User>, ids: seq<int>)
    requires forall id :: id in ids ==> id in stored
    ensures SkipInsert(stored, UserRows(ReferencedUsers(ids))) == stored
  {
    ReferencedUsersSpec(ids);
    CreateUsersNothingNew(stored, ReferencedUsers(ids));
  }

  /** Adding an id adds its templated user unless the id was already
      referenced. */
  lemma ReferencedUsersSnoc(ids: seq<int>, id: int)
    ensures ReferencedUsers(ids + [id]) ==
      if id in ids then ReferencedUsers(ids) else ReferencedUsers(ids) + [TemplatedUser(id)]
  {
    DistinctSnoc(ids, id);
    DistinctSpec(ids);
    MapSeqAppend(Distinct(ids), [id], TemplatedUser);
  }
}
