/**
 * The professor registry (`app/routers/professor.py`): the same sign-up, lookup
 * and partial update as the student registry, without nicknames, xp or level.
 */
module Professors {
  import opened Wrappers
  import opened PyText
  import opened Entities

  /** The body of `POST /professores/`. */
  datatype ProfessorCreate = ProfessorCreate(matricula: string, nome: string, senha: string, avatarId: int)

  /** The body of `PUT /professores/{matricula}`: every field may be left out. */
  datatype ProfessorUpdate = ProfessorUpdate(
    nome: Option<string>,
    avatarId: Option<int>,
    senhaAtual: Option<string>,
    novaSenha: Option<string>)

  /** The prefix the sign-up puts in front of the access token. */
  const BearerPrefix: string := "bearer "

  /** The row a successful sign-up stores: the found avatar's id, or null when the
      request's avatar id is 0. */
  function NewProfessor(req: ProfessorCreate, hash: string -> string): (p: Professor)
  {
    Professor(req.matricula, req.nome, hash(req.senha), if req.avatarId != 0 then Some(req.avatarId) else None)
  }

  /** The first guard of the sign-up that fails: matricula, then avatar. */
  function CreateCheck(db: Db, req: ProfessorCreate): (f: Option<Failure>)
  {
    if req.matricula in db.professors then Some(MatriculaTaken)
    else if req.avatarId != 0 && req.avatarId !in db.avatars then Some(AvatarNotFound)
    else None
  }

  /** `create_user`: the answer carries the matricula and `"bearer "` followed by the
      token issued for it. */
  function Create(db: Db, req: ProfessorCreate, hash: string -> string, token: string): (s: Step<Created>)
    ensures s.res.Err? ==> s.db == db
  {
    match CreateCheck(db, req)
    case Some(f) => Step(db, Err(f))
    case None =>
      Step(db.(professors := db.professors[req.matricula := NewProfessor(req, hash)]),
           Ok(Created(req.matricula, BearerPrefix + token)))
  }

  /** `get_prof_by_id`: the row under `matricula`, or 404. */
  function Get(db: Db, matricula: string): (r: Result<Professor>)
    ensures r.Ok? <==> matricula in db.professors
    ensures r.Ok? ==> r.value == db.professors[matricula]
    ensures r.Err? ==> r.failure == ProfessorNotFound && ProfessorNotFound.Status() == 404
  {
    if matricula in db.professors then Ok(db.professors[matricula]) else Err(ProfessorNotFound)
  }

  /** The first guard of the update that fails, in the order the handler runs them. */
  function UpdateCheck(db: Db, matricula: string, req: ProfessorUpdate, verify: (string, string) -> bool): (f: Option<Failure>)
  {
    if matricula !in db.professors then Some(ProfessorNotFound)
    else if req.avatarId.Some? && req.avatarId.value !in db.avatars then Some(AvatarNotFound)
    else if IsTruthy(req.novaSenha) && !IsTruthy(req.senhaAtual) then Some(CurrentPasswordMissing)
    else if IsTruthy(req.novaSenha) && !verify(req.senhaAtual.value, db.professors[matricula].senha)
    then Some(CurrentPasswordWrong)
    else if IsTruthy(req.novaSenha) && |req.novaSenha.value| < 6 then Some(NewPasswordTooShort)
    else None
  }

  /** The row after every supplied field of the update is written. */
  function Updated(p: Professor, req: ProfessorUpdate, hash: string -> string): (q: Professor)
  {
    p.(avatarId := if req.avatarId.Some? then req.avatarId else p.avatarId,
       nome := if req.nome.Some? then req.nome.value else p.nome,
       senha := if IsTruthy(req.novaSenha) then hash(req.novaSenha.value) else p.senha)
  }

  /** `update_professor`: commit every supplied field, or answer the first failing guard
      and roll back. */
  function Update(db: Db, matricula: string, req: ProfessorUpdate,
                  verify: (string, string) -> bool, hash: string -> string): (s: Step<Professor>)
    ensures s.res.Err? ==> s.db == db
  {
    match UpdateCheck(db, matricula, req, verify)
    case Some(f) => Step(db, Err(f))
    case None =>
      var prof := Updated(db.professors[matricula], req, hash);
      Step(db.(professors := db.professors[matricula := prof]), Ok(prof))
  }

  // ----- Properties of the sign-up -----

  /** A taken matricula is answered 400, then an unknown non-zero avatar 404; both leave
      the store as it was. */
  lemma CreateGuardOrder(db: Db, req: ProfessorCreate, hash: string -> string, token: string)
    ensures req.matricula in db.professors ==>
      Create(db, req, hash, token) == Step(db, Err(MatriculaTaken)) && MatriculaTaken.Status() == 400
    ensures req.matricula !in db.professors && req.avatarId != 0 && req.avatarId !in db.avatars ==>
      Create(db, req, hash, token) == Step(db, Err(AvatarNotFound)) && AvatarNotFound.Status() == 404
    ensures Create(db, req, hash, token).res.Ok? <==>
      req.matricula !in db.professors && (req.avatarId == 0 || req.avatarId in db.avatars)
  {
  }

  /** A successful sign-up adds exactly one professor with the hashed password and the
      avatar reference as found (null for id 0); the answer's token starts with "bearer ". */
  lemma CreateAddsOneProfessor(db: Db, req: ProfessorCreate, hash: string -> string, token: string)
    requires Create(db, req, hash, token).res.Ok?
    ensures var s := Create(db, req, hash, token);
      && req.matricula !in db.professors
      && s.db.professors.Keys == db.professors.Keys + {req.matricula}
      && (forall m :: m in db.professors ==> s.db.professors[m] == db.professors[m])
      && s.db.professors[req.matricula].matricula == req.matricula
      && s.db.professors[req.matricula].senha == hash(req.senha)
      && s.db.professors[req.matricula].nome == req.nome
      && (req.avatarId == 0 ==> s.db.professors[req.matricula].avatarId == None)
      && (req.avatarId != 0 ==> s.db.professors[req.matricula].avatarId == Some(req.avatarId)
                                && req.avatarId in db.avatars)
      && s.db.(professors := db.professors) == db
      && s.res.value.matricula == req.matricula
      && s.res.value.accessToken[..|BearerPrefix|] == "bearer "
      && s.res.value.accessToken[|BearerPrefix|..] == token
  {
  }

  /** The sign-up keeps the store consistent. */
  lemma CreatePreservesGood(db: Db, req: ProfessorCreate, hash: string -> string, token: string)
    requires Good(db)
    ensures Good(Create(db, req, hash, token).db)
  {
  }

  /** After a successful sign-up the lookup finds the new professor. */
  lemma GetAfterCreate(db: Db, req: ProfessorCreate, hash: string -> string, token: string)
    requires Create(db, req, hash, token).res.Ok?
    ensures Get(Create(db, req, hash, token).db, req.matricula) == Ok(NewProfessor(req, hash))
    ensures Get(db, req.matricula) == Err(ProfessorNotFound) && ProfessorNotFound.Status() == 404
  {
  }

  // ----- Properties of the update -----

  /** An unknown matricula is answered 404; an unknown avatar 404 before any password guard. */
  lemma UpdateGuardOrder(db: Db, matricula: string, req: ProfessorUpdate,
                         verify: (string, string) -> bool, hash: string -> string)
    ensures matricula !in db.professors ==>
      Update(db, matricula, req, verify, hash) == Step(db, Err(ProfessorNotFound))
    ensures matricula in db.professors && req.avatarId.Some? && req.avatarId.value !in db.avatars ==>
      Update(db, matricula, req, verify, hash) == Step(db, Err(AvatarNotFound))
  {
  }

  /** The update commits exactly when the professor exists, a supplied avatar exists, and a
      requested password change has the current password supplied and verified and a new
      one of at least 6 characters; a name-only or avatar-only update always commits. */
  lemma UpdateCommitsIff(db: Db, matricula: string, req: ProfessorUpdate,
                         verify: (string, string) -> bool, hash: string -> string)
    ensures Update(db, matricula, req, verify, hash).res.Ok? <==>
      && matricula in db.professors
      && (req.avatarId.None? || req.avatarId.value in db.avatars)
      && (IsTruthy(req.novaSenha) ==>
            && IsTruthy(req.senhaAtual)
            && verify(req.senhaAtual.value, db.professors[matricula].senha)
            && |req.novaSenha.value| >= 6)
  {
  }

  /** A committed update changes only that professor: the avatar only when one is supplied
      (and it exists), the name only when supplied, the password only when a new one is;
      the matricula never. */
  lemma UpdateCommitsOneRow(db: Db, matricula: string, req: ProfessorUpdate,
                            verify: (string, string) -> bool, hash: string -> string)
    requires Update(db, matricula, req, verify, hash).res.Ok?
    ensures var s := Update(db, matricula, req, verify, hash);
      var p, q := db.professors[matricula], s.res.value;
      && s.db.professors == db.professors[matricula := q]
      && s.db.(professors := db.professors) == db
      && q.matricula == p.matricula
      && q.avatarId == (if req.avatarId.Some? then req.avatarId else p.avatarId)
      && (req.avatarId.Some? ==> req.avatarId.value in db.avatars)
      && q.nome == (if req.nome.Some? then req.nome.value else p.nome)
      && q.senha == (if IsTruthy(req.novaSenha) then hash(req.novaSenha.value) else p.senha)
  {
  }

  /** A committed password change had the current password supplied and verified and a new
      one of at least 6 characters; a failing guard answers 400 and rolls back everything. */
  lemma UpdatePasswordGuard(db: Db, matricula: string, req: ProfessorUpdate,
                            verify: (string, string) -> bool, hash: string -> string)
    requires matricula in db.professors && IsTruthy(req.novaSenha)
    ensures var s := Update(db, matricula, req, verify, hash);
      s.res.Ok? ==>
        && IsTruthy(req.senhaAtual)
        && verify(req.senhaAtual.value, db.professors[matricula].senha)
        && |req.novaSenha.value| >= 6
    ensures var s := Update(db, matricula, req, verify, hash);
      (req.avatarId.None? || req.avatarId.value in db.avatars) ==>
        (s.res.Ok? <==> IsTruthy(req.senhaAtual)
                        && verify(req.senhaAtual.value, db.professors[matricula].senha)
                        && |req.novaSenha.value| >= 6)
    ensures var s := Update(db, matricula, req, verify, hash);
      !IsTruthy(req.senhaAtual) && (req.avatarId.None? || req.avatarId.value in db.avatars) ==>
        s == Step(db, Err(CurrentPasswordMissing)) && CurrentPasswordMissing.Status() == 400
    ensures var s := Update(db, matricula, req, verify, hash);
      IsTruthy(req.senhaAtual) && (req.avatarId.None? || req.avatarId.value in db.avatars)
      && !verify(req.senhaAtual.value, db.professors[matricula].senha) ==>
        s == Step(db, Err(CurrentPasswordWrong)) && CurrentPasswordWrong.Status() == 400
    ensures var s := Update(db, matricula, req, verify, hash);
      IsTruthy(req.senhaAtual) && (req.avatarId.None? || req.avatarId.value in db.avatars)
      && verify(req.senhaAtual.value, db.professors[matricula].senha) && |req.novaSenha.value| < 6 ==>
        s == Step(db, Err(NewPasswordTooShort)) && NewPasswordTooShort.Status() == 400
  {
  }

  /** The update keeps the store consistent. */
  lemma UpdatePreservesGood(db: Db, matricula: string, req: ProfessorUpdate,
                            verify: (string, string) -> bool, hash: string -> string)
    requires Good(db)
    ensures Good(Update(db, matricula, req, verify, hash).db)
  {
  }
}
