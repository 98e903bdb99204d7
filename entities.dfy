/**
 * The records of the gamification backend's tables, the failures its handlers
 * raise as HTTP errors, and a value snapshot of the whole store.
 */
module Entities {
  import opened Wrappers

  /** A `Decimal` column value (`nota_max`); the handlers only copy it. */
  datatype Decimal = Decimal(text: string)

  /** A `datetime` value (`data_entrega`); the handlers only copy it. */
  datatype DateTime = DateTime(text: string)

  /** A calendar `date` (`data_conquista`); the handlers only copy it. */
  datatype Date = Date(text: string)

  /** A row of the `Aluno` table, keyed by `matricula`. */
  datatype Student = Student(
    matricula: string,
    nome: string,
    nickname: Option<string>,
    senha: string,        // the password hash, never the password
    xp: int,
    nivel: int,
    avatarId: int)

  /** A row of the `Professor` table, keyed by `matricula`. */
  datatype Professor = Professor(
    matricula: string,
    nome: string,
    senha: string,
    avatarId: Option<int>)

  /** A row of the `Atividade` table. Every column but the key is nullable here,
      because a partial update writes an explicit `null` as given. */
  datatype Activity = Activity(
    id: int,
    nome: Option<string>,
    descricao: Option<string>,
    notaMax: Option<Decimal>,
    pontos: Option<int>,
    badgeId: Option<int>,
    turmaId: Option<int>,
    dataEntrega: Option<DateTime>)

  /** A row of the `Badge` table. */
  datatype Badge = Badge(id: int, nome: string, requisito: string, caminhoFoto: string)

  /** A row of the `Avatar` table; only its key is consulted. */
  datatype Avatar = Avatar(id: int)

  /** A row of the `Turma` table; only its key is consulted. */
  datatype Turma = Turma(id: int, nome: string, professorMatricula: Option<string>)

  /** A row of `AlunoAtividade`: a student's grade for an activity. */
  datatype Completion = Completion(matricula: string, atividadeId: int, nota: string)

  /** A row of `AlunoBadge`: a badge a student earned, and when. */
  datatype Award = Award(matricula: string, badgeId: int, dataConquista: Date)

  /** The reason a handler raises an `HTTPException`. */
  datatype Failure =
    | MatriculaTaken
    | NicknameTaken
    | CurrentPasswordMissing
    | CurrentPasswordWrong
    | NewPasswordTooShort
    | StudentNotFound
    | ProfessorNotFound
    | AvatarNotFound
    | ActivityNotFound
    | BadgeNotFound
    | ClassNotFound
    | StorageFailure
  {
    /** The HTTP status code the handler answers with. */
    function Status(): (code: int)
    {
      match this
      case MatriculaTaken | NicknameTaken
        | CurrentPasswordMissing | CurrentPasswordWrong | NewPasswordTooShort => 400
      case StudentNotFound | ProfessorNotFound | AvatarNotFound
        | ActivityNotFound | BadgeNotFound | ClassNotFound => 404
      case StorageFailure => 500
    }
  }

  /** What a handler answers: a value, or the failure it raised. */
  datatype Result<+T> = Ok(value: T) | Err(failure: Failure)

  /** The body of a successful sign-up: the new user's key and an access token. */
  datatype Created = Created(matricula: string, accessToken: string)

  /** A snapshot of every table. `nextActivityId` and `nextBadgeId` stand for the
      database's auto-increment counters. */
  datatype Db = Db(
    students: map<string, Student>,
    professors: map<string, Professor>,
    activities: map<int, Activity>,
    badges: map<int, Badge>,
    avatars: map<int, Avatar>,
    classes: map<int, Turma>,
    completions: seq<Completion>,
    awards: seq<Award>,
    nextActivityId: int,
    nextBadgeId: int)

  /** The store after a handler, and what the handler answered. */
  datatype Step<+T> = Step(db: Db, res: Result<T>)

  /** No two students hold the same non-null nickname. */
  ghost predicate UniqueNicknames(students: map<string, Student>)
  {
    forall a, b :: a in students && b in students && a != b && students[a].nickname.Some? ==>
      students[a].nickname != students[b].nickname
  }

  /** The consistency every handler keeps: rows sit under their own key, auto-increment
      keys lie below the counter, nicknames are unique, and every reference a handler
      checked still names a row (a student's avatar id 0 is the one unchecked value). */
  ghost predicate Good(db: Db)
  {
    && 1 <= db.nextActivityId && 1 <= db.nextBadgeId
    && (forall m :: m in db.students ==>
          db.students[m].matricula == m
          && (db.students[m].avatarId == 0 || db.students[m].avatarId in db.avatars))
    && UniqueNicknames(db.students)
    && (forall m :: m in db.professors ==>
          db.professors[m].matricula == m
          && (db.professors[m].avatarId.Some? ==> db.professors[m].avatarId.value in db.avatars))
    && (forall id :: id in db.activities ==>
          db.activities[id].id == id && 1 <= id < db.nextActivityId
          && (db.activities[id].badgeId.Some? ==> db.activities[id].badgeId.value in db.badges)
          && (db.activities[id].turmaId.Some? ==> db.activities[id].turmaId.value in db.classes))
    && (forall id :: id in db.badges ==> db.badges[id].id == id && 1 <= id < db.nextBadgeId)
    && (forall i :: 0 <= i < |db.awards| ==>
          db.awards[i].matricula in db.students && db.awards[i].badgeId in db.badges)
  }
}
