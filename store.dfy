/**
 * The mutating handlers as the routers run them: one `Database` object holds every
 * table, each handler checks its guards in order and returns early on the first
 * failure, before anything is written (the rollback), and otherwise writes its
 * table once (the commit). Each method is proved to do exactly what the
 * corresponding function of its router module says.
 */
module Store {
  import opened Wrappers
  import opened PyText
  import opened Entities
  import Students
  import Professors
  import Activities
  import Badges

  class Database {
    var students: map<string, Student>
    var professors: map<string, Professor>
    var activities: map<int, Activity>
    var badges: map<int, Badge>
    var avatars: map<int, Avatar>
    var classes: map<int, Turma>
    var completions: seq<Completion>
    var awards: seq<Award>
    var nextActivityId: int
    var nextBadgeId: int

    /** The tables as a value. */
    function State(): (db: Db)
      reads this
    {
      Db(students, professors, activities, badges, avatars, classes, completions, awards,
         nextActivityId, nextBadgeId)
    }

    ghost predicate Valid()
      reads this
    {
      Good(State())
    }

    /** An empty store over the given avatar and class tables. */
    constructor (avatars: map<int, Avatar>, classes: map<int, Turma>)
      ensures Valid()
      ensures State() == Db(map[], map[], map[], map[], avatars, classes, [], [], 1, 1)
    {
      this.students, this.professors, this.activities, this.badges := map[], map[], map[], map[];
      this.avatars, this.classes := avatars, classes;
      this.completions, this.awards := [], [];
      this.nextActivityId, this.nextBadgeId := 1, 1;
    }

    /** `POST /alunos/` (aluno.py `create_user`). */
    method CreateStudent(req: Students.StudentCreate, hash: string -> string, token: string)
      returns (r: Result<Created>)
      requires Valid()
      modifies this
      ensures Valid()
      ensures Step(State(), r) == Students.Create(old(State()), req, hash, token)
    {
      if req.matricula in students {
        return Err(MatriculaTaken);
      }
      if req.avatarId != 0 && req.avatarId !in avatars {
        return Err(AvatarNotFound);
      }
      if Students.NicknameInUse(students, req.nickname) {
        return Err(NicknameTaken);
      }
      var hashed := hash(req.senha);
      var aluno := Student(req.matricula, req.nome, Some(req.nickname), hashed, req.xp, req.nivel, req.avatarId);
      Students.CreatePreservesGood(State(), req, hash, token);
      students := students[req.matricula := aluno];
      r := Ok(Created(req.matricula, token));
    }

    /** `PUT /alunos/{matricula}` (aluno.py `update_aluno`): the fields of a copy of the
        row are assigned one guard at a time, and the copy is written back only at the end. */
    method UpdateStudent(matricula: string, req: Students.StudentUpdate,
                         verify: (string, string) -> bool, hash: string -> string)
      returns (r: Result<Student>)
      requires Valid()
      modifies this
      ensures Valid()
      ensures Step(State(), r) == Students.Update(old(State()), matricula, req, verify, hash)
    {
      if matricula !in students {
        return Err(StudentNotFound);
      }
      var aluno := students[matricula];
      if req.avatarId.Some? {
        if req.avatarId.value !in avatars {
          return Err(AvatarNotFound);
        }
        aluno := aluno.(avatarId := req.avatarId.value);
      }
      if req.nickname.Some? {
        var nicknameFinal := Students.NormalizeNickname(req.nickname.value);
        if nicknameFinal != aluno.nickname && nicknameFinal.Some? {
          if Students.HeldByOther(students, matricula, nicknameFinal.value) {
            return Err(NicknameTaken);
          }
        }
        aluno := aluno.(nickname := nicknameFinal);
      }
      if req.nome.Some? {
        aluno := aluno.(nome := req.nome.value);
      }
      if IsTruthy(req.novaSenha) {
        if !IsTruthy(req.senhaAtual) {
          return Err(CurrentPasswordMissing);
        }
        if !verify(req.senhaAtual.value, aluno.senha) {
          return Err(CurrentPasswordWrong);
        }
        if |req.novaSenha.value| < 6 {
          return Err(NewPasswordTooShort);
        }
        aluno := aluno.(senha := hash(req.novaSenha.value));
      }
      ghost var spec := Students.Update(State(), matricula, req, verify, hash);
      Students.UpdatePreservesGood(State(), matricula, req, verify, hash);
      assert spec.res == Ok(aluno) by {
        assert Students.UpdateCheck(State(), matricula, req, verify).None?;
      }
      students := students[matricula := aluno];
      r := Ok(aluno);
    }

    /** `POST /professores/` (professor.py `create_user`). */
    method CreateProfessor(req: Professors.ProfessorCreate, hash: string -> string, token: string)
      returns (r: Result<Created>)
      requires Valid()
      modifies this
      ensures Valid()
      ensures Step(State(), r) == Professors.Create(old(State()), req, hash, token)
    {
      if req.matricula in professors {
        return Err(MatriculaTaken);
      }
      var avatar: Option<Avatar> := None;
      if req.avatarId != 0 {
        if req.avatarId !in avatars {
          return Err(AvatarNotFound);
        }
        avatar := Some(avatars[req.avatarId]);
      }
      var hashed := hash(req.senha);
      var avatarId: Option<int> := if avatar.Some? then Some(req.avatarId) else None;
      Professors.CreatePreservesGood(State(), req, hash, token);
      professors := professors[req.matricula := Professor(req.matricula, req.nome, hashed, avatarId)];
      r := Ok(Created(req.matricula, Professors.BearerPrefix + token));
    }

    /** `PUT /professores/{matricula}` (professor.py `update_professor`). */
    method UpdateProfessor(matricula: string, req: Professors.ProfessorUpdate,
                           verify: (string, string) -> bool, hash: string -> string)
      returns (r: Result<Professor>)
      requires Valid()
      modifies this
      ensures Valid()
      ensures Step(State(), r) == Professors.Update(old(State()), matricula, req, verify, hash)
    {
      if matricula !in professors {
        return Err(ProfessorNotFound);
      }
      var professor := professors[matricula];
      if req.avatarId.Some? {
        if req.avatarId.value !in avatars {
          return Err(AvatarNotFound);
        }
        professor := professor.(avatarId := req.avatarId);
      }
      if req.nome.Some? {
        professor := professor.(nome := req.nome.value);
      }
      if IsTruthy(req.novaSenha) {
        if !IsTruthy(req.senhaAtual) {
          return Err(CurrentPasswordMissing);
        }
        if !verify(req.senhaAtual.value, professor.senha) {
          return Err(CurrentPasswordWrong);
        }
        if |req.novaSenha.value| < 6 {
          return Err(NewPasswordTooShort);
        }
        professor := professor.(senha := hash(req.novaSenha.value));
      }
      Professors.UpdatePreservesGood(State(), matricula, req, verify, hash);
      professors := professors[matricula := professor];
      r := Ok(professor);
    }

    /** `POST /atividades/` (atividade.py `create_atv`). */
    method CreateActivity(req: Activities.ActivityCreate) returns (r: Result<Activity>)
      requires Valid()
      modifies this
      ensures Valid()
      ensures Step(State(), r) == Activities.Create(old(State()), req)
    {
      var badgeId: Option<int> := None;
      if req.badgeId != 0 {
        if req.badgeId !in badges {
          return Err(BadgeNotFound);
        }
        badgeId := Some(badges[req.badgeId].id);
      }
      var turmaId: Option<int> := None;
      if req.turmaId != 0 {
        if req.turmaId !in classes {
          return Err(ClassNotFound);
        }
        turmaId := Some(req.turmaId);
      }
      var atv := Activity(nextActivityId, Some(req.nome), req.descricao, Some(req.notaMax), Some(req.pontos),
                          badgeId, turmaId, Some(req.dataEntrega));
      Activities.CreatePreservesGood(State(), req);
      activities := activities[atv.id := atv];
      nextActivityId := nextActivityId + 1;
      r := Ok(atv);
    }

    /** `PUT /atividades/{id}` (atividade.py `update_atv`). */
    method UpdateActivity(id: int, u: Activities.ActivityUpdate) returns (r: Result<Activity>)
      requires Valid()
      modifies this
      ensures Valid()
      ensures Step(State(), r) == Activities.Update(old(State()), id, u)
    {
      if id !in activities {
        return Err(ActivityNotFound);
      }
      if u.badgeId.Set? && u.badgeId.value.Some? && u.badgeId.value.value !in badges {
        return Err(BadgeNotFound);
      }
      if u.turmaId.Set? && u.turmaId.value.Some? && u.turmaId.value.value !in classes {
        return Err(ClassNotFound);
      }
      var atv := Activities.SetAttrs(activities[id], u);
      Activities.UpdatePreservesGood(State(), id, u);
      activities := activities[id := atv];
      r := Ok(atv);
    }

    /** `DELETE /atividades/{id}` (atividade.py `delete_atv`), with the completion rows of the
        activity removed by the cascade. */
    method DeleteActivity(id: int) returns (r: Result<()>)
      requires Valid()
      modifies this
      ensures Valid()
      ensures Step(State(), r) == Activities.Delete(old(State()), id)
    {
      if id !in activities {
        return Err(ActivityNotFound);
      }
      Activities.DeletePreservesGood(State(), id);
      activities := activities - {id};
      completions := Activities.WithoutActivity(completions, id);
      r := Ok(());
    }

    /** `POST /atividades/alunos/{matricula}/atividades/{atv_id}` (atividade.py
        `atribuir_nota_aluno`); `committed` is the database's verdict on the insert. */
    method AssignGrade(matricula: string, atvId: int, nota: string, committed: bool) returns (r: Result<()>)
      requires Valid()
      modifies this
      ensures Valid()
      ensures Step(State(), r) == Activities.AssignGrade(old(State()), matricula, atvId, nota, committed)
    {
      if !committed {
        return Err(StorageFailure);
      }
      completions := completions + [Completion(matricula, atvId, nota)];
      r := Ok(());
    }

    /** `POST /badges/` (badge.py `create_badge`). */
    method CreateBadge(req: Badges.BadgeCreate) returns (r: Result<Badge>)
      requires Valid()
      modifies this
      ensures Valid()
      ensures Step(State(), r) == Badges.Create(old(State()), req)
    {
      var badge := Badge(nextBadgeId, req.nome, req.requisito, req.caminhoFoto);
      Badges.CreatePreservesGood(State(), req);
      badges := badges[badge.id := badge];
      nextBadgeId := nextBadgeId + 1;
      r := Ok(badge);
    }

    /** `POST /badges/{badge_id}/alunos/{matricula}` (badge.py `conquistar_badge`). */
    method ConquerBadge(matricula: string, badgeId: int, today: Date) returns (r: Result<()>)
      requires Valid()
      modifies this
      ensures Valid()
      ensures Step(State(), r) == Badges.Conquer(old(State()), matricula, badgeId, today)
    {
      if matricula !in students {
        return Err(StudentNotFound);
      }
      if badgeId !in badges {
        return Err(BadgeNotFound);
      }
      Badges.ConquerPreservesGood(State(), matricula, badgeId, today);
      awards := awards + [Award(matricula, badgeId, today)];
      r := Ok(());
    }
  }
}
