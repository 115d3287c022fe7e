/**
 `upsertUser`: from a partial user it builds the row to insert and the column
 assignments to apply when a user with the same `openId` already exists
 (`INSERT ... ON DUPLICATE KEY UPDATE`), then applies them to the `users` table.
 */
module UserUpsert {
  import opened Wrappers
  import opened Schema
  import opened Db
  import Seqs

  /**
   The partial user handed to `upsertUser`. An outer `None` is a key left `undefined`;
   for the nullable text columns an inner `None` is an explicit `null`.
   */
  datatype UserInput = UserInput(
    openId: Option<string>,
    name: Option<Option<string>>,
    email: Option<Option<string>>,
    loginMethod: Option<Option<string>>,
    role: Option<Role>,
    lastSignedIn: Option<Timestamp>)

  /** The columns `upsertUser` may write. */
  datatype Column = OpenIdColumn | NameColumn | EmailColumn | LoginMethodColumn | RoleColumn | LastSignedInColumn

  /** A value written to a column. */
  datatype Cell = TextCell(text: string) | NullCell | RoleCell(role: Role) | TimeCell(time: Timestamp)

  /** The insert row (`values`) and the on-duplicate assignments (`updateSet`). */
  datatype UpsertPlan = UpsertPlan(values: map<Column, Cell>, updateSet: map<Column, Cell>)

  datatype UpsertError = OpenIdRequired

  /** `value ?? null` for a defined text field. */
  function NullableCell(v: Option<string>): Cell {
    match v
    case Some(t) => TextCell(t)
    case None => NullCell
  }

  /** The same cell written to both the insert row and the update set. */
  function Assign(plan: UpsertPlan, column: Column, cell: Cell): UpsertPlan {
    UpsertPlan(plan.values[column := cell], plan.updateSet[column := cell])
  }

  /** `assignNullable`: an undefined field is skipped, a defined one (null included) goes to both. */
  function AssignNullable(plan: UpsertPlan, column: Column, field: Option<Option<string>>): UpsertPlan {
    if field.None? then plan else Assign(plan, column, NullableCell(field.value))
  }

  /** The rule for one nullable text column. */
  ghost predicate NullableRule(plan: UpsertPlan, column: Column, field: Option<Option<string>>) {
    && (field.None? ==> column !in plan.values && column !in plan.updateSet)
    && (field.Some? ==>
          && column in plan.values && column in plan.updateSet
          && plan.values[column] == NullableCell(field.value)
          && plan.updateSet[column] == NullableCell(field.value))
  }

  /** The rule for `role`: explicit role, else `admin` for the owner, else nothing written. */
  ghost predicate RoleRule(plan: UpsertPlan, user: UserInput, ownerOpenId: string) {
    && (user.role.Some? ==>
          && RoleColumn in plan.values && RoleColumn in plan.updateSet
          && plan.values[RoleColumn] == RoleCell(user.role.value)
          && plan.updateSet[RoleColumn] == RoleCell(user.role.value))
    && (user.role.None? && user.openId == Some(ownerOpenId) ==>
          && RoleColumn in plan.values && RoleColumn in plan.updateSet
          && plan.values[RoleColumn] == RoleCell(Admin)
          && plan.updateSet[RoleColumn] == RoleCell(Admin))
    && (user.role.None? && user.openId != Some(ownerOpenId) ==>
          RoleColumn !in plan.values && RoleColumn !in plan.updateSet)
  }

  /** Every column of the update set is written with the same value in the insert row. */
  ghost predicate UpdateAgreesWithInsert(plan: UpsertPlan) {
    forall c :: c in plan.updateSet ==> c in plan.values && plan.values[c] == plan.updateSet[c]
  }

  /** No text field is defined, so none of the text columns is written. */
  predicate NoTextFields(user: UserInput) {
    user.name.None? && user.email.None? && user.loginMethod.None?
  }

  /** No column other than `lastSignedIn` would be written on a duplicate key. */
  predicate NothingToUpdate(user: UserInput, ownerOpenId: string) {
    && NoTextFields(user)
    && user.lastSignedIn.None? && user.role.None? && user.openId != Some(ownerOpenId)
  }

  /** `openId` and the three nullable text columns (`textFields.forEach(assignNullable)`). */
  function AssignTextFields(user: UserInput, openId: string): (p: UpsertPlan)
    ensures p.values.Keys == p.updateSet.Keys + {OpenIdColumn}
    ensures p.values[OpenIdColumn] == TextCell(openId) && OpenIdColumn !in p.updateSet
    ensures NullableRule(p, NameColumn, user.name)
    ensures NullableRule(p, EmailColumn, user.email)
    ensures NullableRule(p, LoginMethodColumn, user.loginMethod)
    ensures p.updateSet.Keys <= {NameColumn, EmailColumn, LoginMethodColumn}
    ensures p.updateSet == map[] <==> NoTextFields(user)
    ensures UpdateAgreesWithInsert(p)
  {
    var p0 := UpsertPlan(map[OpenIdColumn := TextCell(openId)], map[]);
    var p1 := AssignNullable(p0, NameColumn, user.name);
    var p2 := AssignNullable(p1, EmailColumn, user.email);
    var p3 := AssignNullable(p2, LoginMethodColumn, user.loginMethod);
    assert user.name.Some? ==> NameColumn in p3.updateSet;
    assert user.email.Some? ==> EmailColumn in p3.updateSet;
    p3
  }

  /** `lastSignedIn` when given, then `role` (explicit, or `admin` for the owner). */
  function AssignRoleAndSignIn(p: UpsertPlan, user: UserInput, openId: string, ownerOpenId: string): (q: UpsertPlan)
    requires user.openId == Some(openId)
    requires p.values.Keys == p.updateSet.Keys + {OpenIdColumn} && OpenIdColumn !in p.updateSet
    requires p.updateSet.Keys <= {NameColumn, EmailColumn, LoginMethodColumn}
    requires UpdateAgreesWithInsert(p)
    ensures q.values.Keys == q.updateSet.Keys + {OpenIdColumn} && OpenIdColumn !in q.updateSet
    ensures forall c :: c in p.values ==> c in q.values && q.values[c] == p.values[c]
    ensures forall c :: c in p.updateSet ==> c in q.updateSet && q.updateSet[c] == p.updateSet[c]
    ensures q.updateSet.Keys <= p.updateSet.Keys + {RoleColumn, LastSignedInColumn}
    ensures RoleRule(q, user, ownerOpenId)
    ensures LastSignedInColumn in q.updateSet <==> user.lastSignedIn.Some?
    ensures user.lastSignedIn.Some? ==> q.values[LastSignedInColumn] == TimeCell(user.lastSignedIn.value)
    ensures q.updateSet == map[] <==> p.updateSet == map[] && user.lastSignedIn.None? && user.role.None? && openId != ownerOpenId
    ensures UpdateAgreesWithInsert(q)
  {
    var p4 := if user.lastSignedIn.Some? then Assign(p, LastSignedInColumn, TimeCell(user.lastSignedIn.value)) else p;
    var p5 :=
      if user.role.Some? then Assign(p4, RoleColumn, RoleCell(user.role.value))
      else if openId == ownerOpenId then Assign(p4, RoleColumn, RoleCell(Admin))
      else p4;
    assert user.lastSignedIn.Some? ==> LastSignedInColumn in p5.updateSet;
    p5
  }

  /**
   The `values`/`updateSet` construction of `upsertUser`; `ownerOpenId` is the configured
   owner and `now` the time read by `new Date()`.
   */
  function BuildUpsert(user: UserInput, ownerOpenId: string, now: Timestamp): (r: Result<UpsertPlan, UpsertError>)
    ensures r.Failure? <==> user.openId.None? || user.openId.value == ""
    ensures r.Success? ==>
      var plan := r.value;
      && OpenIdColumn in plan.values && plan.values[OpenIdColumn] == TextCell(user.openId.value)
      && OpenIdColumn !in plan.updateSet
      && NullableRule(plan, NameColumn, user.name)
      && NullableRule(plan, EmailColumn, user.email)
      && NullableRule(plan, LoginMethodColumn, user.loginMethod)
      && RoleRule(plan, user, ownerOpenId)
      && LastSignedInColumn in plan.values
      && plan.values[LastSignedInColumn] == TimeCell(user.lastSignedIn.GetOr(now))
      && plan.updateSet != map[]
      && (LastSignedInColumn in plan.updateSet <==> user.lastSignedIn.Some? || NothingToUpdate(user, ownerOpenId))
      && UpdateAgreesWithInsert(plan)
  {
    if user.openId.None? || user.openId.value == "" then Failure(OpenIdRequired)
    else
      var openId := user.openId.value;
      var p3 := AssignTextFields(user, openId);
      var p5 := AssignRoleAndSignIn(p3, user, openId, ownerOpenId);
      var p6 := if LastSignedInColumn !in p5.values then p5.(values := p5.values[LastSignedInColumn := TimeCell(now)]) else p5;
      var p7 := if p6.updateSet == map[] then p6.(updateSet := map[LastSignedInColumn := TimeCell(now)]) else p6;
      Success(p7)
  }

  /** A cell read back as a nullable text column. */
  function TextOf(row: map<Column, Cell>, column: Column, default: Option<string>): Option<string> {
    if column !in row then default
    else match row[column]
      case TextCell(t) => Some(t)
      case _ => None
  }

  function RoleOf(row: map<Column, Cell>, default: Role): Role {
    if RoleColumn in row && row[RoleColumn].RoleCell? then row[RoleColumn].role else default
  }

  function TimeOf(row: map<Column, Cell>, default: Timestamp): Timestamp {
    if LastSignedInColumn in row && row[LastSignedInColumn].TimeCell? then row[LastSignedInColumn].time else default
  }

  /** The nullable text column as the row stores it after `cells` were written over `before`. */
  ghost predicate TextWritten(cells: map<Column, Cell>, column: Column, before: Option<string>, stored: Option<string>) {
    && (column !in cells ==> stored == before)
    && (column in cells && cells[column].TextCell? ==> stored == Some(cells[column].text))
    && (column in cells && cells[column].NullCell? ==> stored == None)
  }

  /**
   The row inserted for a new `openId`: the written columns, and otherwise the column
   defaults — `null` text, role `user`, and the insert time for every timestamp.
   */
  function InsertedUser(values: map<Column, Cell>, openId: string, id: int, now: Timestamp): (u: UserRow)
    ensures u.id == id && u.openId == openId && u.createdAt == now && u.updatedAt == now
    ensures TextWritten(values, NameColumn, None, u.name)
    ensures TextWritten(values, EmailColumn, None, u.email)
    ensures TextWritten(values, LoginMethodColumn, None, u.loginMethod)
    ensures u.role == (if RoleColumn in values && values[RoleColumn].RoleCell? then values[RoleColumn].role else User)
    ensures u.lastSignedIn ==
      (if LastSignedInColumn in values && values[LastSignedInColumn].TimeCell? then values[LastSignedInColumn].time else now)
  {
    UserRow(
      id, openId, TextOf(values, NameColumn, None), TextOf(values, EmailColumn, None),
      TextOf(values, LoginMethodColumn, None), RoleOf(values, User), now, now, TimeOf(values, now))
  }

  /**
   The existing row after the on-duplicate assignments: the assigned columns take their
   new values, the rest stay; `updatedAt` moves to `now` only when a value really changed.
   */
  function UpdatedUser(u: UserRow, updateSet: map<Column, Cell>, now: Timestamp): (r: UserRow)
    ensures r.id == u.id && r.openId == u.openId && r.createdAt == u.createdAt
    ensures TextWritten(updateSet, NameColumn, u.name, r.name)
    ensures TextWritten(updateSet, EmailColumn, u.email, r.email)
    ensures TextWritten(updateSet, LoginMethodColumn, u.loginMethod, r.loginMethod)
    ensures r.role == (if RoleColumn in updateSet && updateSet[RoleColumn].RoleCell? then updateSet[RoleColumn].role else u.role)
    ensures r.lastSignedIn ==
      (if LastSignedInColumn in updateSet && updateSet[LastSignedInColumn].TimeCell? then updateSet[LastSignedInColumn].time
       else u.lastSignedIn)
    ensures r.updatedAt == (if r.(updatedAt := u.updatedAt) == u then u.updatedAt else now)
  {
    var written := u.(
      name := TextOf(updateSet, NameColumn, u.name),
      email := TextOf(updateSet, EmailColumn, u.email),
      loginMethod := TextOf(updateSet, LoginMethodColumn, u.loginMethod),
      role := RoleOf(updateSet, u.role),
      lastSignedIn := TimeOf(updateSet, u.lastSignedIn));
    if written == u then u else written.(updatedAt := now)
  }

  /** The update branch of the upsert: row `i` receives the assignments, the others stay. */
  function UpdateUserAt(users: seq<UserRow>, i: nat, updateSet: map<Column, Cell>, now: Timestamp): (r: seq<UserRow>)
    requires i < |users|
    ensures |r| == |users| && r[i] == UpdatedUser(users[i], updateSet, now)
    ensures forall k :: 0 <= k < |users| && k != i ==> r[k] == users[k]
    ensures forall k :: 0 <= k < |users| ==> r[k].id == users[k].id && r[k].openId == users[k].openId
  {
    users[i := UpdatedUser(users[i], updateSet, now)]
  }

  /**
   `INSERT ... ON DUPLICATE KEY UPDATE` on `users`, whose unique key here is `openId`:
   the row with the plan's `openId` is updated in place, or a row is appended.
   */
  function ApplyUpsert(s: Store, openId: string, plan: UpsertPlan, now: Timestamp): (r: Store)
    ensures |s.users| <= |r.users| <= |s.users| + 1
    ensures GetUserByOpenId(s, openId).Some? ==> |r.users| == |s.users| && r.nextUserId == s.nextUserId
    ensures GetUserByOpenId(s, openId).None? ==>
      r.users == s.users + [InsertedUser(plan.values, openId, s.nextUserId, now)] && r.nextUserId == s.nextUserId + 1
    ensures GetUserByOpenId(r, openId).Some?
    ensures forall i ::
      (0 <= i < |s.users| && s.users[i].openId == openId && forall j :: 0 <= j < i ==> s.users[j].openId != openId)
      ==> r.users[i] == UpdatedUser(s.users[i], plan.updateSet, now)
    ensures UniqueOpenIds(s.users) ==> forall i :: 0 <= i < |s.users| && s.users[i].openId == openId ==>
      r.users[i] == UpdatedUser(s.users[i], plan.updateSet, now)
    ensures forall i :: 0 <= i < |s.users| && s.users[i].openId != openId ==> r.users[i] == s.users[i]
    ensures forall i :: 0 <= i < |s.users| ==> r.users[i].id == s.users[i].id && r.users[i].openId == s.users[i].openId
    ensures r.(users := s.users, nextUserId := s.nextUserId) == s
  {
    match Seqs.FindIndex(s.users, (u: UserRow) => u.openId == openId)
    case Some(i) =>
      var users := UpdateUserAt(s.users, i, plan.updateSet, now);
      assert users[i].openId == openId;
      s.(users := users)
    case None =>
      var r := s.(users := s.users + [InsertedUser(plan.values, openId, s.nextUserId, now)],
                  nextUserId := s.nextUserId + 1);
      assert r.users[|s.users|].openId == openId;
      assert forall i :: 0 <= i < |s.users| ==> r.users[i] == s.users[i];
      r
  }

  /** Upserting keeps the table's keys and its `openId`s unique. */
  lemma ApplyUpsertValid(s: Store, openId: string, plan: UpsertPlan, now: Timestamp)
    ensures Valid(s) ==> Valid(ApplyUpsert(s, openId, plan, now))
  {
    if !Valid(s) {
      return;
    }
    var r := ApplyUpsert(s, openId, plan, now);
    if GetUserByOpenId(s, openId).None? {
      KeyedAppend(s.users, UserKey, s.nextUserId, InsertedUser(plan.values, openId, s.nextUserId, now));
      forall i, j | 0 <= i < j < |r.users|
        ensures r.users[i].openId != r.users[j].openId
      {
        if j == |s.users| {
          assert s.users[i].openId != openId;
        }
      }
    } else {
      KeyedSameKeys(s.users, r.users, UserKey, s.nextUserId);
      SameOpenIdsKeepUnique(s.users, r.users);
    }
  }

  /** Rewriting user rows in place without touching their `openId`s keeps those unique. */
  lemma SameOpenIdsKeepUnique(users: seq<UserRow>, users': seq<UserRow>)
    requires |users'| == |users| && forall k :: 0 <= k < |users| ==> users'[k].openId == users[k].openId
    ensures UniqueOpenIds(users) ==> UniqueOpenIds(users')
  {
  }

  /**
   `upsertUser`: a missing or empty `openId` fails before anything is written; otherwise
   exactly one row carries that `openId` afterwards and every other user row is untouched.
   */
  function UpsertUser(s: Store, user: UserInput, ownerOpenId: string, now: Timestamp): (r: Result<Store, UpsertError>)
    ensures r.Failure? <==> user.openId.None? || user.openId.value == ""
    ensures r.Success? ==> GetUserByOpenId(r.value, user.openId.value).Some?
    ensures r.Success? ==> |s.users| <= |r.value.users| <= |s.users| + 1
    ensures r.Success? ==> forall i :: |s.users| <= i < |r.value.users| ==> r.value.users[i].openId == user.openId.value
    ensures r.Success? ==> forall i :: 0 <= i < |s.users| && s.users[i].openId != user.openId.value ==>
      r.value.users[i] == s.users[i]
    ensures r.Success? ==> r.value.(users := s.users, nextUserId := s.nextUserId) == s
    ensures r.Success? && Valid(s) ==> Valid(r.value)
  {
    match BuildUpsert(user, ownerOpenId, now)
    case Failure(e) => Failure(e)
    case Success(plan) =>
      var r := ApplyUpsert(s, user.openId.value, plan, now);
      ApplyUpsertValid(s, user.openId.value, plan, now);
      Success(r)
  }

  /** The role `upsertUser` asks for: the given one, else `admin` for the owner, else none. */
  function RequestedRole(user: UserInput, ownerOpenId: string): Option<Role> {
    if user.role.Some? then user.role
    else if user.openId == Some(ownerOpenId) then Some(Admin)
    else None
  }

  /**
   The row a first sign-in stores: each defined text field (`null` for the undefined
   ones), the requested role or the column default `user`, and the given sign-in time or now.
   */
  ghost predicate InsertedFromInput(u: UserRow, user: UserInput, ownerOpenId: string, id: int, now: Timestamp) {
    && user.openId.Some?
    && u.id == id && u.openId == user.openId.value
    && u.role == RequestedRole(user, ownerOpenId).GetOr(User)
    && u.name == user.name.GetOr(None) && u.email == user.email.GetOr(None)
    && u.loginMethod == user.loginMethod.GetOr(None)
    && u.createdAt == now && u.updatedAt == now
    && u.lastSignedIn == user.lastSignedIn.GetOr(now)
  }

  /** The insert row of the plan is the input's fields over the column defaults. */
  lemma InsertPlanTakesInput(user: UserInput, ownerOpenId: string, id: int, now: Timestamp)
    requires user.openId.Some? && user.openId.value != ""
    ensures var plan := BuildUpsert(user, ownerOpenId, now).value;
      InsertedFromInput(InsertedUser(plan.values, user.openId.value, id, now), user, ownerOpenId, id, now)
  {
    var plan := BuildUpsert(user, ownerOpenId, now).value;
    assert RequestedRole(user, ownerOpenId).None? ==> RoleColumn !in plan.values;
  }

  /** A first sign-in appends one row carrying the input. */
  lemma NewUserIsInserted(s: Store, user: UserInput, ownerOpenId: string, now: Timestamp)
    requires user.openId.Some? && user.openId.value != ""
    requires GetUserByOpenId(s, user.openId.value).None?
    ensures var r := UpsertUser(s, user, ownerOpenId, now);
      && r.Success? && |r.value.users| == |s.users| + 1
      && InsertedFromInput(r.value.users[|s.users|], user, ownerOpenId, s.nextUserId, now)
  {
    InsertPlanTakesInput(user, ownerOpenId, s.nextUserId, now);
  }

  /**
   A first sign-in that names no role stores a plain `user` (unless the `openId` is the
   owner's); text columns left undefined are `null`, and the sign-in time defaults to now.
   */
  lemma NewUserDefaultsToUserRole(s: Store, user: UserInput, ownerOpenId: string, now: Timestamp)
    requires user.openId.Some? && user.openId.value != "" && user.openId.value != ownerOpenId
    requires user.role.None?
    requires GetUserByOpenId(s, user.openId.value).None?
    ensures var r := UpsertUser(s, user, ownerOpenId, now);
      && r.Success? && |r.value.users| == |s.users| + 1
      && var u := r.value.users[|s.users|];
      && u.openId == user.openId.value && u.role == User
      && u.name == user.name.GetOr(None) && u.email == user.email.GetOr(None)
      && u.loginMethod == user.loginMethod.GetOr(None)
      && u.createdAt == now && u.updatedAt == now
      && u.lastSignedIn == (if user.lastSignedIn.Some? then user.lastSignedIn.value else now)
  {
    NewUserIsInserted(s, user, ownerOpenId, now);
    assert RequestedRole(user, ownerOpenId) == None;
  }

  /**
   The row a returning sign-in leaves: each defined text field, the requested role, and
   the sign-in time (the given one, or now when nothing else would be written) replace
   the old values; every other column keeps its value, and `updatedAt` moves only on a
   change.
   */
  ghost predicate UpdatedFromInput(before: UserRow, u: UserRow, user: UserInput, ownerOpenId: string, now: Timestamp) {
    && u.id == before.id && u.openId == before.openId && u.createdAt == before.createdAt
    && u.name == (if user.name.Some? then user.name.value else before.name)
    && u.email == (if user.email.Some? then user.email.value else before.email)
    && u.loginMethod == (if user.loginMethod.Some? then user.loginMethod.value else before.loginMethod)
    && u.role == RequestedRole(user, ownerOpenId).GetOr(before.role)
    && u.lastSignedIn ==
         (if user.lastSignedIn.Some? then user.lastSignedIn.value
          else if NothingToUpdate(user, ownerOpenId) then now
          else before.lastSignedIn)
    && u.updatedAt == (if u.(updatedAt := before.updatedAt) == before then before.updatedAt else now)
  }

  /** The plan's update set writes the input's fields over any existing row. */
  lemma UpdatePlanTakesInput(before: UserRow, user: UserInput, ownerOpenId: string, now: Timestamp)
    requires user.openId.Some? && user.openId.value != ""
    ensures var plan := BuildUpsert(user, ownerOpenId, now).value;
      UpdatedFromInput(before, UpdatedUser(before, plan.updateSet, now), user, ownerOpenId, now)
  {
    var plan := BuildUpsert(user, ownerOpenId, now).value;
    assert user.name.Some? ==> plan.updateSet[NameColumn] == NullableCell(user.name.value);
    assert user.email.Some? ==> plan.updateSet[EmailColumn] == NullableCell(user.email.value);
    assert user.loginMethod.Some? ==> plan.updateSet[LoginMethodColumn] == NullableCell(user.loginMethod.value);
    assert RequestedRole(user, ownerOpenId).None? ==> RoleColumn !in plan.updateSet;
  }

  /** A returning sign-in rewrites the user's row in place with the input. */
  lemma ExistingUserIsUpdated(s: Store, user: UserInput, ownerOpenId: string, now: Timestamp, i: int)
    requires user.openId.Some? && user.openId.value != ""
    requires UniqueOpenIds(s.users)
    requires 0 <= i < |s.users| && s.users[i].openId == user.openId.value
    ensures var r := UpsertUser(s, user, ownerOpenId, now);
      && r.Success? && |r.value.users| == |s.users|
      && UpdatedFromInput(s.users[i], r.value.users[i], user, ownerOpenId, now)
  {
    assert GetUserByOpenId(s, user.openId.value).Some?;
    UpdatePlanTakesInput(s.users[i], user, ownerOpenId, now);
  }
}
