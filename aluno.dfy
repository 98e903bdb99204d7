/**
 * The student registry (`app/routers/aluno.py`): sign-up, lookup and partial
 * update of `Aluno` rows, as functions from a store snapshot to the next one.
 * Password hashing and verification are passed in; they are not modelled.
 */
module Students {
  import opened Wrappers
  import opened PyText
  import opened Entities

  /** The body of `POST /alunos/`. */
  datatype StudentCreate = StudentCreate(
    matricula: string,
    nome: string,
    nickname: string,
    senha: string,
    xp: int,
    nivel: int,
    avatarId: int)

  /** The body of `PUT /alunos/{matricula}`: every field may be left out (`None`). */
  datatype StudentUpdate = StudentUpdate(
    avatarId: Option<int>,
    nickname: Option<string>,
    nome: Option<string>,
    senhaAtual: Option<string>,
    novaSenha: Option<string>)

  /** A supplied nickname is kept stripped of surrounding whitespace, and one that is
      empty or all whitespace becomes null. */
  function NormalizeNickname(n: string): (r: Option<string>)
    ensures r.None? <==> IsBlank(n)
    ensures r.Some? ==> r.value == Strip(n) && r.value != []
    ensures r.Some? ==> !IsSpace(r.value[0]) && !IsSpace(r.value[|r.value| - 1])
  {
    StripEmptyIffBlank(n);
    if n != [] && Strip(n) != [] then Some(Strip(n)) else None
  }

  /** Some student holds `nickname`. */
  predicate NicknameInUse(students: map<string, Student>, nickname: string)
  {
    exists m :: m in students && students[m].nickname == Some(nickname)
  }

  /** A student other than `self` holds `nickname`. */
  predicate HeldByOther(students: map<string, Student>, self: string, nickname: string)
  {
    exists m :: m in students && m != self && students[m].nickname == Some(nickname)
  }

  /** The row a successful sign-up stores: the password hashed, xp and nivel copied
      from the request, the avatar id stored as given. */
  function NewStudent(req: StudentCreate, hash: string -> string): (s: Student)
  {
    Student(req.matricula, req.nome, Some(req.nickname), hash(req.senha), req.xp, req.nivel, req.avatarId)
  }

  /** The first guard of the sign-up that fails: matricula, then avatar, then nickname. */
  function CreateCheck(db: Db, req: StudentCreate): (f: Option<Failure>)
  {
    if req.matricula in db.students then Some(MatriculaTaken)
    else if req.avatarId != 0 && req.avatarId !in db.avatars then Some(AvatarNotFound)
    else if NicknameInUse(db.students, req.nickname) then Some(NicknameTaken)
    else None
  }

  /** `create_user`: the store after the sign-up and the answer; `token` is the access
      token the security module issues for the new matricula. */
  function Create(db: Db, req: StudentCreate, hash: string -> string, token: string): (s: Step<Created>)
    ensures s.res.Err? ==> s.db == db
  {
    match CreateCheck(db, req)
    case Some(f) => Step(db, Err(f))
    case None =>
      Step(db.(students := db.students[req.matricula := NewStudent(req, hash)]),
           Ok(Created(req.matricula, token)))
  }

  /** `get_aluno_by_id`: the row under `matricula`, or 404. */
  function Get(db: Db, matricula: string): (r: Result<Student>)
    ensures r.Ok? <==> matricula in db.students
    ensures r.Ok? ==> r.value == db.students[matricula]
    ensures r.Err? ==> r.failure == StudentNotFound && StudentNotFound.Status() == 404
  {
    if matricula in db.students then Ok(db.students[matricula]) else Err(StudentNotFound)
  }

  /** The nickname guard of the update: a supplied nickname that normalises to a non-null
      value other than the student's own and that another student holds. */
  predicate NicknameClash(students: map<string, Student>, self: string, nickname: Option<string>)
    requires self in students
  {
    nickname.Some? &&
    var f := NormalizeNickname(nickname.value);
    f != students[self].nickname && f.Some? && HeldByOther(students, self, f.value)
  }

  /** The first guard of the update that fails, in the order the handler runs them. */
  function UpdateCheck(db: Db, matricula: string, req: StudentUpdate, verify: (string, string) -> bool): (f: Option<Failure>)
  {
    if matricula !in db.students then Some(StudentNotFound)
    else if req.avatarId.Some? && req.avatarId.value !in db.avatars then Some(AvatarNotFound)
    else if NicknameClash(db.students, matricula, req.nickname) then Some(NicknameTaken)
    else if IsTruthy(req.novaSenha) && !IsTruthy(req.senhaAtual) then Some(CurrentPasswordMissing)
    else if IsTruthy(req.novaSenha) && !verify(req.senhaAtual.value, db.students[matricula].senha)
    then Some(CurrentPasswordWrong)
    else if IsTruthy(req.novaSenha) && |req.novaSenha.value| < 6 then Some(NewPasswordTooShort)
    else None
  }

  /** The row after every supplied field of the update is written. */
  function Updated(s: Student, req: StudentUpdate, hash: string -> string): (u: Student)
  {
    s.(avatarId := if req.avatarId.Some? then req.avatarId.value else s.avatarId,
       nickname := if req.nickname.Some? then NormalizeNickname(req.nickname.value) else s.nickname,
       nome := if req.nome.Some? then req.nome.value else s.nome,
       senha := if IsTruthy(req.novaSenha) then hash(req.novaSenha.value) else s.senha)
  }

  /** `update_aluno`: all guards pass and every supplied field is committed, or the
      first failing guard is answered and the whole update is rolled back. */
  function Update(db: Db, matricula: string, req: StudentUpdate,
                  verify: (string, string) -> bool, hash: string -> string): (s: Step<Student>)
    ensures s.res.Err? ==> s.db == db
  {
    match UpdateCheck(db, matricula, req, verify)
    case Some(f) => Step(db, Err(f))
    case None =>
      var aluno := Updated(db.students[matricula], req, hash);
      Step(db.(students := db.students[matricula := aluno]), Ok(aluno))
  }

  // ----- Properties of the sign-up -----

  /** The sign-up's guards fire in the order matricula (400), avatar (404), nickname (400),
      each leaving the store as it was; an avatar id of 0 skips the avatar guard. */
  lemma CreateGuardOrder(db: Db, req: StudentCreate, hash: string -> string, token: string)
    ensures req.matricula in db.students ==>
      Create(db, req, hash, token) == Step(db, Err(MatriculaTaken)) && MatriculaTaken.Status() == 400
    ensures req.matricula !in db.students && req.avatarId != 0 && req.avatarId !in db.avatars ==>
      Create(db, req, hash, token) == Step(db, Err(AvatarNotFound)) && AvatarNotFound.Status() == 404
    ensures req.matricula !in db.students && (req.avatarId == 0 || req.avatarId in db.avatars)
            && (exists m :: m in db.students && db.students[m].nickname == Some(req.nickname)) ==>
      Create(db, req, hash, token) == Step(db, Err(NicknameTaken)) && NicknameTaken.Status() == 400
    ensures Create(db, req, hash, token).res.Ok? <==>
      req.matricula !in db.students && (req.avatarId == 0 || req.avatarId in db.avatars)
      && forall m :: m in db.students ==> db.students[m].nickname != Some(req.nickname)
  {
  }

  /** A successful sign-up adds exactly one student, under its matricula, with the hashed
      password and xp, nivel and avatar id as given; no other row of any table changes. */
  lemma CreateAddsOneStudent(db: Db, req: StudentCreate, hash: string -> string, token: string)
    requires Create(db, req, hash, token).res.Ok?
    ensures var s := Create(db, req, hash, token);
      && s.res.value == Created(req.matricula, token)
      && req.matricula !in db.students
      && s.db.students.Keys == db.students.Keys + {req.matricula}
      && (forall m :: m in db.students ==> s.db.students[m] == db.students[m])
      && s.db.students[req.matricula].matricula == req.matricula
      && s.db.students[req.matricula].nome == req.nome
      && s.db.students[req.matricula].senha == hash(req.senha)
      && s.db.students[req.matricula].xp == req.xp
      && s.db.students[req.matricula].nivel == req.nivel
      && s.db.students[req.matricula].avatarId == req.avatarId
      && s.db.students[req.matricula].nickname == Some(req.nickname)
      && s.db.(students := db.students) == db
  {
  }

  /** The sign-up keeps the store consistent; in particular no two students ever share
      a non-null nickname. */
  lemma CreatePreservesGood(db: Db, req: StudentCreate, hash: string -> string, token: string)
    requires Good(db)
    ensures Good(Create(db, req, hash, token).db)
  {
    var s := Create(db, req, hash, token);
    if s.res.Ok? {
      var st := s.db.students;
      forall a, b | a in st && b in st && a != b && st[a].nickname.Some?
        ensures st[a].nickname != st[b].nickname
      {
        if a == req.matricula {
          assert st[b] == db.students[b];
        } else if b == req.matricula {
          assert st[a] == db.students[a];
          assert !NicknameInUse(db.students, req.nickname);
        }
      }
    }
  }

  /** After a successful sign-up the lookup finds the new student. */
  lemma GetAfterCreate(db: Db, req: StudentCreate, hash: string -> string, token: string)
    requires Create(db, req, hash, token).res.Ok?
    ensures Get(Create(db, req, hash, token).db, req.matricula) == Ok(NewStudent(req, hash))
    ensures Get(db, req.matricula) == Err(StudentNotFound) && StudentNotFound.Status() == 404
  {
  }

  // ----- Properties of the update -----

  /** An unknown matricula is answered 404 and nothing changes; an unknown avatar is
      answered 404 before the nickname or the password is looked at. */
  lemma UpdateGuardOrder(db: Db, matricula: string, req: StudentUpdate,
                         verify: (string, string) -> bool, hash: string -> string)
    ensures matricula !in db.students ==>
      Update(db, matricula, req, verify, hash) == Step(db, Err(StudentNotFound))
    ensures matricula in db.students && req.avatarId.Some? && req.avatarId.value !in db.avatars ==>
      Update(db, matricula, req, verify, hash) == Step(db, Err(AvatarNotFound))
  {
  }

  /** What a committed update stores: supplied fields are written (the nickname stripped,
      or null when blank; the new password hashed), omitted ones keep their value, and
      matricula, xp and nivel never change. */
  lemma UpdatedFields(s: Student, req: StudentUpdate, hash: string -> string)
    ensures var u := Updated(s, req, hash);
      && u.matricula == s.matricula && u.xp == s.xp && u.nivel == s.nivel
      && u.avatarId == (if req.avatarId.Some? then req.avatarId.value else s.avatarId)
      && u.nome == (if req.nome.Some? then req.nome.value else s.nome)
      && (req.nickname.None? ==> u.nickname == s.nickname)
      && (req.nickname.Some? && IsBlank(req.nickname.value) ==> u.nickname == None)
      && (req.nickname.Some? && !IsBlank(req.nickname.value) ==> u.nickname == Some(Strip(req.nickname.value)))
      && u.senha == (if IsTruthy(req.novaSenha) then hash(req.novaSenha.value) else s.senha)
  {
  }

  /** A committed update changes the one row, to `Updated`, and answers it. */
  lemma UpdateCommitsOneRow(db: Db, matricula: string, req: StudentUpdate,
                            verify: (string, string) -> bool, hash: string -> string)
    requires Update(db, matricula, req, verify, hash).res.Ok?
    ensures var s := Update(db, matricula, req, verify, hash);
      && matricula in db.students
      && s.res.value == Updated(db.students[matricula], req, hash)
      && s.db.students == db.students[matricula := s.res.value]
      && s.db.(students := db.students) == db
  {
  }

  /** The nickname guard rejects a non-null nickname exactly when another student holds it
      and it is not the student's own. */
  lemma UpdateNicknameRule(db: Db, matricula: string, req: StudentUpdate,
                           verify: (string, string) -> bool, hash: string -> string)
    requires matricula in db.students && req.nickname.Some?
    requires req.avatarId.None? || req.avatarId.value in db.avatars
    ensures var f := NormalizeNickname(req.nickname.value);
      Update(db, matricula, req, verify, hash).res == Err(NicknameTaken) <==>
        f.Some? && f != db.students[matricula].nickname
        && exists m :: m in db.students && m != matricula && db.students[m].nickname == f
    ensures NormalizeNickname(req.nickname.value) == db.students[matricula].nickname ==>
      Update(db, matricula, req, verify, hash).res != Err(NicknameTaken)
  {
  }

  /** A committed update that asked for a new password had the current one supplied and
      verified, and the new one is at least 6 characters long; each of those guards, when
      it fails, answers 400 and rolls back the whole update. */
  lemma UpdatePasswordGuard(db: Db, matricula: string, req: StudentUpdate,
                            verify: (string, string) -> bool, hash: string -> string)
    requires matricula in db.students && IsTruthy(req.novaSenha)
    ensures var s := Update(db, matricula, req, verify, hash);
      s.res.Ok? ==>
        && IsTruthy(req.senhaAtual)
        && verify(req.senhaAtual.value, db.students[matricula].senha)
        && |req.novaSenha.value| >= 6
        && s.db.students[matricula].senha == hash(req.novaSenha.value)
    ensures var s := Update(db, matricula, req, verify, hash);
      s.res in {Err(CurrentPasswordMissing), Err(CurrentPasswordWrong), Err(NewPasswordTooShort)} ==>
        s.db == db && s.res.failure.Status() == 400
    ensures var s := Update(db, matricula, req, verify, hash);
      !IsTruthy(req.senhaAtual) && (req.avatarId.None? || req.avatarId.value in db.avatars)
      && !NicknameClash(db.students, matricula, req.nickname) ==>
        s == Step(db, Err(CurrentPasswordMissing))
    ensures var s := Update(db, matricula, req, verify, hash);
      IsTruthy(req.senhaAtual) && (req.avatarId.None? || req.avatarId.value in db.avatars)
      && !NicknameClash(db.students, matricula, req.nickname)
      && !verify(req.senhaAtual.value, db.students[matricula].senha) ==>
        s == Step(db, Err(CurrentPasswordWrong))
    ensures var s := Update(db, matricula, req, verify, hash);
      IsTruthy(req.senhaAtual) && (req.avatarId.None? || req.avatarId.value in db.avatars)
      && !NicknameClash(db.students, matricula, req.nickname)
      && verify(req.senhaAtual.value, db.students[matricula].senha) && |req.novaSenha.value| < 6 ==>
        s == Step(db, Err(NewPasswordTooShort))
  {
  }

  /** The update commits exactly when the student exists, a supplied avatar exists, the
      nickname does not clash, and a requested password change passes all three guards. */
  lemma UpdateCommitsIff(db: Db, matricula: string, req: StudentUpdate,
                         verify: (string, string) -> bool, hash: string -> string)
    ensures Update(db, matricula, req, verify, hash).res.Ok? <==>
      && matricula in db.students
      && (req.avatarId.None? || req.avatarId.value in db.avatars)
      && !NicknameClash(db.students, matricula, req.nickname)
      && (IsTruthy(req.novaSenha) ==>
            && IsTruthy(req.senhaAtual)
            && verify(req.senhaAtual.value, db.students[matricula].senha)
            && |req.novaSenha.value| >= 6)
  {
  }

  /** The update keeps the store consistent; in particular no two students ever share a
      non-null nickname. */
  lemma UpdatePreservesGood(db: Db, matricula: string, req: StudentUpdate,
                            verify: (string, string) -> bool, hash: string -> string)
    requires Good(db)
    ensures Good(Update(db, matricula, req, verify, hash).db)
  {
    var s := Update(db, matricula, req, verify, hash);
    if s.res.Ok? {
      var before := db.students[matricula];
      var u := s.res.value;
      var st := s.db.students;
      forall a, b | a in st && b in st && a != b && st[a].nickname.Some?
        ensures st[a].nickname != st[b].nickname
      {
        if a == matricula {
          assert st[b] == db.students[b];
          if u.nickname != before.nickname {
            assert !HeldByOther(db.students, matricula, u.nickname.value);
          }
        } else if b == matricula {
          assert st[a] == db.students[a];
          if u.nickname != before.nickname && u.nickname.Some? {
            assert !HeldByOther(db.students, matricula, u.nickname.value);
          }
        }
      }
    }
  }
}
