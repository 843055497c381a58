/** The relational schema of the application (the `users`, `mascotas` and
    `tareas` tables) and the store that holds them: primary keys, the unique
    email, the unique one-pet-per-user owner reference, the non-null owner
    references, the column defaults and the cascade from a user to its pet
    and its tasks. Tables are sequences of rows in primary-key order. */
module Schema {
  import opened Wrappers
  import opened Credentials
  import opened Rows

  /** Declared `String(n)` lengths. SQLite stores longer text unchanged, so
      these bounds are recorded but not part of `TablesValid`. */
  const UsernameLength := 50
  const EmailLength := 100
  const PetNameLength := 20
  const DescriptionLength := 100

  /** A calendar date, taken as given (no calendar arithmetic is modelled). */
  datatype Date = Date(year: int, month: int, day: int)

  /** A row of `users`: `id_user`, `username`, `email`, `password_hash`. */
  datatype User = User(id: nat, username: string, email: string, passwordHash: PasswordHash)

  /** A row of `mascotas` (pets): `id_mascota`, `nombre_mascota`,
      `puntos_totales`, and the owner reference `id_usuario`. */
  datatype Pet = Pet(id: nat, name: string, points: int, owner: nat)

  /** A row of `tareas` (tasks): `id_tarea`, `descripcion_tarea`, `estado`,
      `fecha_creacion`, `puntos_tarea`, `fecha_limite`, and the owner
      reference `id_usuario`. */
  datatype Task = Task(id: nat, description: string, done: bool, createdOn: Date,
                       points: int, dueDate: Option<Date>, owner: nat)

  /** The constraint an insert breaks, as the database reports it. */
  datatype IntegrityError = UniqueViolation | NotNullViolation | ForeignKeyViolation

  function UserKey(u: User): nat { u.id }
  function PetKey(p: Pet): nat { p.id }
  function TaskKey(t: Task): nat { t.id }
  predicate UserKeyBefore(a: User, b: User) { a.id < b.id }
  predicate PetKeyBefore(a: Pet, b: Pet) { a.id < b.id }
  predicate TaskKeyBefore(a: Task, b: Task) { a.id < b.id }
  predicate EmailsDiffer(a: User, b: User) { a.email != b.email }
  predicate OwnersDiffer(a: Pet, b: Pet) { a.owner != b.owner }

  predicate HasUser(users: seq<User>, id: nat) {
    exists u :: u in users && u.id == id
  }

  predicate EmailInUse(users: seq<User>, email: string) {
    exists u :: u in users && u.email == email
  }

  predicate HasPet(pets: seq<Pet>, owner: nat) {
    exists p :: p in pets && p.owner == owner
  }

  /** The declared constraints: increasing primary keys in every table,
      `users.email` unique, `mascotas.id_usuario` unique, and every pet and
      task owned by an existing user. `users.username` is not unique. */
  ghost predicate TablesValid(users: seq<User>, pets: seq<Pet>, tasks: seq<Task>) {
    && Pairwise(users, UserKeyBefore)
    && Pairwise(users, EmailsDiffer)
    && Pairwise(pets, PetKeyBefore)
    && Pairwise(pets, OwnersDiffer)
    && Pairwise(tasks, TaskKeyBefore)
    && (forall p :: p in pets ==> HasUser(users, p.owner))
    && (forall t :: t in tasks ==> HasUser(users, t.owner))
  }

  /** The declared lengths, which no operation of the application checks. */
  predicate WithinDeclaredLengths(users: seq<User>, pets: seq<Pet>, tasks: seq<Task>) {
    && (forall u :: u in users ==> |u.username| <= UsernameLength && |u.email| <= EmailLength)
    && (forall p :: p in pets ==> |p.name| <= PetNameLength)
    && (forall t :: t in tasks ==> |t.description| <= DescriptionLength)
  }

  /** `User.query.get(id)`: the user with that primary key, if any. */
  function FindUser(users: seq<User>, id: nat): (r: Option<User>)
    ensures r.Some? ==> r.value in users && r.value.id == id
    ensures r.None? <==> !HasUser(users, id)
  {
    match FirstIndex(users, (u: User) => u.id == id)
    case Some(k) => Some(users[k])
    case None => None
  }

  /** With distinct keys, looking a user up by its own key finds that user. */
  lemma FindUserByKey(users: seq<User>, u: User)
    requires Pairwise(users, UserKeyBefore) && u in users
    ensures FindUser(users, u.id) == Some(u)
  {
    var v := FindUser(users, u.id).value;
    var i :| 0 <= i < |users| && users[i] == u;
    var j :| 0 <= j < |users| && users[j] == v;
    assert i < j ==> UserKeyBefore(users[i], users[j]);
    assert j < i ==> UserKeyBefore(users[j], users[i]);
  }

  /** A table with at most one pet per owner: two pets with one owner are the
      same row. */
  lemma AtMostOnePetPerUser(users: seq<User>, pets: seq<Pet>, tasks: seq<Task>, p: Pet, q: Pet)
    requires TablesValid(users, pets, tasks)
    requires p in pets && q in pets && p.owner == q.owner
    ensures p == q
  {
    var i :| 0 <= i < |pets| && pets[i] == p;
    var j :| 0 <= j < |pets| && pets[j] == q;
    assert i < j ==> OwnersDiffer(pets[i], pets[j]);
    assert j < i ==> OwnersDiffer(pets[j], pets[i]);
  }

  /** The schema admits two users with the same username, since only the
      email column is declared unique. */
  lemma UsernameNotUnique(hash: PasswordHash)
    ensures var users := [User(1, "ana", "ana@x.com", hash), User(2, "ana", "other@x.com", hash)];
            TablesValid(users, [], []) && users[0].username == users[1].username
  {
    var users := [User(1, "ana", "ana@x.com", hash), User(2, "ana", "other@x.com", hash)];
    assert users[0].email != users[1].email by { assert users[0].email[0] != users[1].email[0]; }
  }

  /** The row that inserting a user adds: the next primary key and the
      given columns. */
  function NewUser(users: seq<User>, username: string, email: string, hash: PasswordHash): (u: User)
    ensures u.id >= 1 && (users != [] ==> users[|users| - 1].id < u.id)
    ensures u.username == username && u.email == email && u.passwordHash == hash
  {
    User(NextKey(users, UserKey), username, email, hash)
  }

  /** Inserting a user whose email is not in use keeps the constraints. */
  lemma InsertUserKeepsValid(users: seq<User>, pets: seq<Pet>, tasks: seq<Task>,
                             username: string, email: string, hash: PasswordHash)
    requires TablesValid(users, pets, tasks) && !EmailInUse(users, email)
    ensures var u := NewUser(users, username, email, hash);
            TablesValid(users + [u], pets, tasks) && !HasUser(users, u.id)
  {
    var u := NewUser(users, username, email, hash);
    NextKeyFresh(users, UserKey, UserKeyBefore);
    AppendPairwise(users, u, UserKeyBefore);
    AppendPairwise(users, u, EmailsDiffer);
    forall x | x in pets ensures HasUser(users + [u], x.owner) {
      var w :| w in users && w.id == x.owner;
      assert w in users + [u];
    }
    forall x | x in tasks ensures HasUser(users + [u], x.owner) {
      var w :| w in users && w.id == x.owner;
      assert w in users + [u];
    }
  }

  /** The rows that survive deleting user `id`. */
  function NotUser(id: nat): User -> bool { (u: User) => u.id != id }
  function PetNotOf(id: nat): Pet -> bool { (p: Pet) => p.owner != id }
  function TaskNotOf(id: nat): Task -> bool { (t: Task) => t.owner != id }

  /** What is left of each table once user `id` is deleted. */
  function UsersOtherThan(users: seq<User>, id: nat): seq<User> {
    Keep(users, NotUser(id))
  }

  function PetsNotOwnedBy(pets: seq<Pet>, id: nat): seq<Pet> {
    Keep(pets, PetNotOf(id))
  }

  function TasksNotOwnedBy(tasks: seq<Task>, id: nat): seq<Task> {
    Keep(tasks, TaskNotOf(id))
  }

  /** The cascade `all, delete-orphan` from a user to its pet and its tasks:
      exactly the user's own rows go, every other row stays, and the
      constraints still hold, so nothing is left pointing at the deleted
      user. */
  lemma DeleteCascade(users: seq<User>, pets: seq<Pet>, tasks: seq<Task>, id: nat)
    requires TablesValid(users, pets, tasks)
    ensures var (us, ps, ts) := (UsersOtherThan(users, id), PetsNotOwnedBy(pets, id), TasksNotOwnedBy(tasks, id));
            && (forall u :: u in us <==> u in users && u.id != id)
            && (forall p :: p in ps <==> p in pets && p.owner != id)
            && (forall t :: t in ts <==> t in tasks && t.owner != id)
            && !HasUser(us, id)
            && TablesValid(us, ps, ts)
  {
    var us, ps, ts := UsersOtherThan(users, id), PetsNotOwnedBy(pets, id), TasksNotOwnedBy(tasks, id);
    KeepPairwise(users, NotUser(id), UserKeyBefore);
    KeepPairwise(users, NotUser(id), EmailsDiffer);
    KeepPairwise(pets, PetNotOf(id), PetKeyBefore);
    KeepPairwise(pets, PetNotOf(id), OwnersDiffer);
    KeepPairwise(tasks, TaskNotOf(id), TaskKeyBefore);
    forall p | p in ps ensures HasUser(us, p.owner) {
      var w :| w in users && w.id == p.owner;
      assert w in us;
    }
    forall t | t in ts ensures HasUser(us, t.owner) {
      var w :| w in users && w.id == t.owner;
      assert w in us;
    }
  }

  /** Deleting a user that does not exist changes no table. */
  lemma DeleteAbsentUser(users: seq<User>, pets: seq<Pet>, tasks: seq<Task>, id: nat)
    requires TablesValid(users, pets, tasks) && !HasUser(users, id)
    ensures UsersOtherThan(users, id) == users
    ensures PetsNotOwnedBy(pets, id) == pets
    ensures TasksNotOwnedBy(tasks, id) == tasks
  {
    KeepAll(users, NotUser(id));
    KeepAll(pets, PetNotOf(id));
    KeepAll(tasks, TaskNotOf(id));
  }

  /** The three tables, as the ORM session sees them. */
  class Store {
    var users: seq<User>
    var pets: seq<Pet>
    var tasks: seq<Task>
    /** The default of `fecha_creacion`: `date.today()` evaluated once, when
        the schema is loaded, and shared by every task created afterwards. */
    const creationDefault: Date

    ghost predicate Valid()
      reads this
    {
      TablesValid(users, pets, tasks)
    }

    constructor (creationDefault: Date)
      ensures Valid() && users == [] && pets == [] && tasks == []
      ensures this.creationDefault == creationDefault
    {
      users, pets, tasks := [], [], [];
      this.creationDefault := creationDefault;
    }

    /** Insert a user; the unique email column refuses a duplicate. */
    method InsertUser(username: string, email: string, hash: PasswordHash)
      returns (r: Result<User, IntegrityError>)
      requires Valid()
      modifies this
      ensures Valid()
      ensures EmailInUse(old(users), email) ==> r == Failure(UniqueViolation) && users == old(users)
      ensures !EmailInUse(old(users), email) ==>
                r == Success(NewUser(old(users), username, email, hash)) && users == old(users) + [r.value]
      ensures pets == old(pets) && tasks == old(tasks)
    {
      if EmailInUse(users, email) {
        return Failure(UniqueViolation);
      }
      InsertUserKeepsValid(users, pets, tasks, username, email, hash);
      var u := NewUser(users, username, email, hash);
      users := users + [u];
      r := Success(u);
    }

    /** Insert a pet. A column argument is `None` when it is left unset:
        the name and the owner are NOT NULL, and the points fall back to
        their default of 0. The owner must exist and must not have a pet
        yet. */
    method InsertPet(name: Option<string>, owner: Option<nat>, points: Option<int>)
      returns (r: Result<Pet, IntegrityError>)
      requires Valid()
      modifies this
      ensures Valid()
      ensures r.Success? <==> name.Some? && owner.Some? && HasUser(users, owner.value)
                              && !HasPet(old(pets), owner.value)
      ensures name.None? || owner.None? ==> r == Failure(NotNullViolation)
      ensures name.Some? && owner.Some? && !HasUser(users, owner.value) ==> r == Failure(ForeignKeyViolation)
      ensures name.Some? && owner.Some? && HasUser(users, owner.value) && HasPet(old(pets), owner.value)
              ==> r == Failure(UniqueViolation)
      ensures r.Success? ==> r.value.id == NextKey(old(pets), PetKey) && r.value.name == name.value
                             && r.value.owner == owner.value && r.value.points == points.GetOr(0)
      ensures pets == if r.Success? then old(pets) + [r.value] else old(pets)
      ensures users == old(users) && tasks == old(tasks)
    {
      if name.None? || owner.None? {
        return Failure(NotNullViolation);
      }
      if !HasUser(users, owner.value) {
        return Failure(ForeignKeyViolation);
      }
      if HasPet(pets, owner.value) {
        return Failure(UniqueViolation);
      }
      var p := Pet(NextKey(pets, PetKey), name.value, points.GetOr(0), owner.value);
      NextKeyFresh(pets, PetKey, PetKeyBefore);
      AppendPairwise(pets, p, PetKeyBefore);
      AppendPairwise(pets, p, OwnersDiffer);
      pets := pets + [p];
      r := Success(p);
    }

    /** Insert a task. A column argument is `None` when it is left unset:
        the description, the points and the owner are NOT NULL; `done` falls
        back to false; the creation date is the schema's default; the due
        date may stay empty. */
    method InsertTask(description: Option<string>, points: Option<int>, dueDate: Option<Date>,
                      owner: Option<nat>, done: Option<bool>)
      returns (r: Result<Task, IntegrityError>)
      requires Valid()
      modifies this
      ensures Valid()
      ensures r.Success? <==> description.Some? && points.Some? && owner.Some? && HasUser(users, owner.value)
      ensures description.None? || points.None? || owner.None? ==> r == Failure(NotNullViolation)
      ensures description.Some? && points.Some? && owner.Some? && !HasUser(users, owner.value)
              ==> r == Failure(ForeignKeyViolation)
      ensures r.Success? ==> r.value.id == NextKey(old(tasks), TaskKey)
                             && r.value.description == description.value && r.value.done == done.GetOr(false)
                             && r.value.createdOn == creationDefault && r.value.points == points.value
                             && r.value.dueDate == dueDate && r.value.owner == owner.value
      ensures tasks == if r.Success? then old(tasks) + [r.value] else old(tasks)
      ensures users == old(users) && pets == old(pets)
    {
      if description.None? || points.None? || owner.None? {
        return Failure(NotNullViolation);
      }
      if !HasUser(users, owner.value) {
        return Failure(ForeignKeyViolation);
      }
      var t := Task(NextKey(tasks, TaskKey), description.value, done.GetOr(false), creationDefault,
                    points.value, dueDate, owner.value);
      NextKeyFresh(tasks, TaskKey, TaskKeyBefore);
      AppendPairwise(tasks, t, TaskKeyBefore);
      tasks := tasks + [t];
      r := Success(t);
    }

    /** Delete a user through the ORM; the cascade removes its pet and its
        tasks with it. `found` says whether the user existed. */
    method DeleteUser(id: nat) returns (found: bool)
      requires Valid()
      modifies this
      ensures Valid()
      ensures found == HasUser(old(users), id) && !HasUser(users, id)
      ensures users == UsersOtherThan(old(users), id)
      ensures pets == PetsNotOwnedBy(old(pets), id)
      ensures tasks == TasksNotOwnedBy(old(tasks), id)
      ensures !found ==> users == old(users) && pets == old(pets) && tasks == old(tasks)
    {
      found := HasUser(users, id);
      DeleteCascade(users, pets, tasks, id);
      if !found {
        DeleteAbsentUser(users, pets, tasks, id);
      }
      users, pets, tasks := UsersOtherThan(users, id), PetsNotOwnedBy(pets, id), TasksNotOwnedBy(tasks, id);
    }
  }
}
