/**
 * The row and insert schemas of the database tables as validation predicates over
 * flat records, and the two string enums. Every field of every schema is a string;
 * an optional field may also be missing or `undefined`. Properties that a schema
 * does not list are ignored (they are stripped on parse), so they never make a
 * record invalid.
 */
module Schema {
  import opened Js
  import opened Json

  datatype TaskStatus = Active | Completed | Archived

  function TaskStatusName(t: TaskStatus): string
  {
    match t
    case Active => "active"
    case Completed => "completed"
    case Archived => "archived"
  }

  /** `TaskStatusSchema.safeParse`: exactly the three status names are accepted. */
  function ParseTaskStatus(s: string): (r: Option<TaskStatus>)
    ensures r.Some? <==> s == "active" || s == "completed" || s == "archived"
    ensures r.Some? ==> TaskStatusName(r.value) == s
  {
    if s == "active" then Some(Active)
    else if s == "completed" then Some(Completed)
    else if s == "archived" then Some(Archived)
    else None
  }

  lemma TaskStatusRoundTrip(t: TaskStatus)
    ensures ParseTaskStatus(TaskStatusName(t)) == Some(t)
  {
  }

  datatype UserRole = Guest | Default | Manager | Admin

  function UserRoleName(u: UserRole): string
  {
    match u
    case Guest => "guest"
    case Default => "default"
    case Manager => "manager"
    case Admin => "admin"
  }

  /** `UserRoleSchema.safeParse`: exactly the four role names are accepted. */
  function ParseUserRole(s: string): (r: Option<UserRole>)
    ensures r.Some? <==> s == "guest" || s == "default" || s == "manager" || s == "admin"
    ensures r.Some? ==> UserRoleName(r.value) == s
  {
    if s == "guest" then Some(Guest)
    else if s == "default" then Some(Default)
    else if s == "manager" then Some(Manager)
    else if s == "admin" then Some(Admin)
    else None
  }

  lemma UserRoleRoundTrip(u: UserRole)
    ensures ParseUserRole(UserRoleName(u)) == Some(u)
  {
  }

  datatype Presence = Required | Optional

  /** A `z.object` shape: each property name with `z.string()` or `z.string().optional()`. */
  type ObjectSchema = map<string, Presence>

  predicate FieldValid(name: string, p: Presence, r: Record)
  {
    match p
    case Required => name in r && r[name].Str?
    case Optional => name !in r || r[name].Undefined? || r[name].Str?
  }

  /** `schema.safeParse(r).success`. */
  predicate Valid(schema: ObjectSchema, r: Record)
  {
    forall n :: n in schema ==> FieldValid(n, schema[n], r)
  }

  const AccountRow: ObjectSchema :=
    map[
      "id" := Required,
      "created_at" := Required,
      "updated_at" := Required,
      "name" := Required,
      "logo_image_path" := Optional,
      "hero_image_path" := Optional
    ]
  const AccountInsert: ObjectSchema :=
    map[
      "id" := Optional,
      "created_at" := Optional,
      "updated_at" := Optional,
      "name" := Required,
      "logo_image_path" := Optional,
      "hero_image_path" := Optional
    ]

  const AccountInviteRow: ObjectSchema :=
    map[
      "id" := Required,
      "created_at" := Required,
      "account_id" := Required,
      "invited_by_user_id" := Optional,
      "code" := Required,
      "email" := Optional,
      "role" := Required,
      "expires_at" := Optional,
      "accepted_at" := Optional,
      "accepted_by_user_id" := Optional,
      "revoked_at" := Optional
    ]
  const AccountInviteInsert: ObjectSchema :=
    map[
      "id" := Optional,
      "created_at" := Optional,
      "account_id" := Required,
      "invited_by_user_id" := Optional,
      "code" := Required,
      "email" := Optional,
      "role" := Optional,
      "expires_at" := Optional,
      "accepted_at" := Optional,
      "accepted_by_user_id" := Optional,
      "revoked_at" := Optional
    ]

  const AccountMembershipRow: ObjectSchema :=
    map[
      "id" := Required,
      "created_at" := Required,
      "last_accessed_at" := Required,
      "user_id" := Required,
      "account_id" := Required,
      "role" := Required
    ]
  const AccountMembershipInsert: ObjectSchema :=
    map[
      "id" := Optional,
      "created_at" := Optional,
      "last_accessed_at" := Optional,
      "user_id" := Required,
      "account_id" := Required,
      "role" := Optional
    ]

  const TaskRow: ObjectSchema :=
    map[
      "id" := Required,
      "created_at" := Required,
      "updated_at" := Required,
      "account_id" := Required,
      "created_by_user_id" := Optional,
      "updated_by_user_id" := Optional,
      "title" := Required,
      "status" := Required,
      "description_markdown" := Required,
      "completed_at" := Optional,
      "archived_at" := Optional
    ]
  const TaskInsert: ObjectSchema :=
    map[
      "id" := Optional,
      "created_at" := Optional,
      "updated_at" := Optional,
      "account_id" := Required,
      "created_by_user_id" := Optional,
      "updated_by_user_id" := Optional,
      "title" := Required,
      "status" := Optional,
      "description_markdown" := Optional,
      "completed_at" := Optional,
      "archived_at" := Optional
    ]

  const UserRow: ObjectSchema :=
    map[
      "id" := Required,
      "created_at" := Required,
      "updated_at" := Required,
      "name" := Required,
      "email" := Required,
      "profile_image_path" := Optional,
      "hero_image_path" := Optional
    ]
  const UserInsert: ObjectSchema :=
    map[
      "id" := Optional,
      "created_at" := Optional,
      "updated_at" := Optional,
      "name" := Required,
      "email" := Required,
      "profile_image_path" := Optional,
      "hero_image_path" := Optional
    ]

  /** The names a schema requires. */
  function RequiredNames(schema: ObjectSchema): (names: set<string>)
    ensures forall n :: n in names <==> n in schema && schema[n] == Required
  {
    set n | n in schema && schema[n] == Required
  }

  /** `ins` asks no more of a record than `row` does: it has no other fields, and requires only what `row` requires. */
  predicate Covers(ins: ObjectSchema, row: ObjectSchema)
  {
    forall n :: n in ins ==> n in row && (ins[n] == Required ==> row[n] == Required)
  }

  /** A record the row schema accepts is accepted by every schema the row schema covers. */
  lemma {:induction false} CoveredSchemaAccepts(ins: ObjectSchema, row: ObjectSchema, r: Record)
    requires Covers(ins, row) && Valid(row, r)
    ensures Valid(ins, r)
  {
    forall n | n in ins
      ensures FieldValid(n, ins[n], r)
    {
      assert FieldValid(n, row[n], r);
    }
  }

  lemma {:induction false} AccountRowIsInsert(r: Record)
    requires Valid(AccountRow, r)
    ensures Valid(AccountInsert, r)
  {
    assert Covers(AccountInsert, AccountRow);
    CoveredSchemaAccepts(AccountInsert, AccountRow, r);
  }

  lemma {:induction false} AccountInviteRowIsInsert(r: Record)
    requires Valid(AccountInviteRow, r)
    ensures Valid(AccountInviteInsert, r)
  {
    assert Covers(AccountInviteInsert, AccountInviteRow);
    CoveredSchemaAccepts(AccountInviteInsert, AccountInviteRow, r);
  }

  lemma {:induction false} AccountMembershipRowIsInsert(r: Record)
    requires Valid(AccountMembershipRow, r)
    ensures Valid(AccountMembershipInsert, r)
  {
    assert Covers(AccountMembershipInsert, AccountMembershipRow);
    CoveredSchemaAccepts(AccountMembershipInsert, AccountMembershipRow, r);
  }

  lemma {:induction false} TaskRowIsInsert(r: Record)
    requires Valid(TaskRow, r)
    ensures Valid(TaskInsert, r)
  {
    assert Covers(TaskInsert, TaskRow);
    CoveredSchemaAccepts(TaskInsert, TaskRow, r);
  }

  lemma {:induction false} UserRowIsInsert(r: Record)
    requires Valid(UserRow, r)
    ensures Valid(UserInsert, r)
  {
    assert Covers(UserInsert, UserRow);
    CoveredSchemaAccepts(UserInsert, UserRow, r);
  }

  /** A task insert needs only an account id and a title; dropping either one fails. */
  lemma TaskInsertMinimal(accountId: string, title: string)
    ensures Valid(TaskInsert, map["account_id" := Str(accountId), "title" := Str(title)])
    ensures !Valid(TaskInsert, map["account_id" := Str(accountId)])
    ensures !Valid(TaskInsert, map["title" := Str(title)])
  {
    assert !FieldValid("title", TaskInsert["title"], map["account_id" := Str(accountId)]);
    assert !FieldValid("account_id", TaskInsert["account_id"], map["title" := Str(title)]);
  }

  lemma AccountInviteRequiredFields()
    ensures RequiredNames(AccountInviteRow) == {"id", "created_at", "account_id", "code", "role"}
  {
  }

  /**
   * The row schemas take any string as a task status or a membership or invite role:
   * a row holding a name no enum accepts is still valid.
   */
  lemma StatusAndRoleAreUnconstrained(task: Record, membership: Record, invite: Record, s: string)
    requires Valid(TaskRow, task) && Valid(AccountMembershipRow, membership) && Valid(AccountInviteRow, invite)
    ensures Valid(TaskRow, task["status" := Str(s)])
    ensures Valid(AccountMembershipRow, membership["role" := Str(s)])
    ensures Valid(AccountInviteRow, invite["role" := Str(s)])
  {
  }

  lemma UnknownStatusExample()
    ensures ParseTaskStatus("blocked").None? && ParseUserRole("owner").None?
  {
  }
}
