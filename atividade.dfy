/**
 * The activity table (`app/routers/atividade.py`): creation with reference checks,
 * lookup, sparse partial update, deletion, and the raw grade insert.
 */
module Activities {
  import opened Wrappers
  import opened Entities

  /** One field of a Pydantic update body: left out (unset), or sent, possibly as `null`. */
  datatype Patch<T> = Unset | Set(value: Option<T>)
  {
    /** The column value after the patch: the sent value if sent, else `current`. */
    function Or(current: Option<T>): (v: Option<T>)
    {
      if Set? then value else current
    }
  }

  /** The body of `POST /atividades/`. */
  datatype ActivityCreate = ActivityCreate(
    nome: string,
    descricao: Option<string>,
    notaMax: Decimal,
    pontos: int,
    badgeId: int,
    turmaId: int,
    dataEntrega: DateTime)

  /** The body of `PUT /atividades/{id}` (`AtividadeUpdate`): every field optional. */
  datatype ActivityUpdate = ActivityUpdate(
    nome: Patch<string>,
    descricao: Patch<string>,
    notaMax: Patch<Decimal>,
    pontos: Patch<int>,
    badgeId: Patch<int>,
    turmaId: Patch<int>,
    dataEntrega: Patch<DateTime>)

  /** One entry of `update_data`: a column name with the value sent for it. */
  datatype Field =
    | Nome(Option<string>)
    | Descricao(Option<string>)
    | NotaMax(Option<Decimal>)
    | Pontos(Option<int>)
    | BadgeRef(Option<int>)
    | TurmaRef(Option<int>)
    | DataEntrega(Option<DateTime>)

  /** `atv_update.dict(exclude_unset=True)`: the sent fields, in declaration order. */
  function UpdateData(u: ActivityUpdate): (fs: seq<Field>)
  {
    (if u.nome.Set? then [Nome(u.nome.value)] else [])
    + ((if u.descricao.Set? then [Descricao(u.descricao.value)] else [])
    + ((if u.notaMax.Set? then [NotaMax(u.notaMax.value)] else [])
    + LaterData(u)))
  }

  /** The sent fields among pontos, badge_id_fk, turma_id_fk and data_entrega. */
  function LaterData(u: ActivityUpdate): (fs: seq<Field>)
  {
    (if u.pontos.Set? then [Pontos(u.pontos.value)] else [])
    + ((if u.badgeId.Set? then [BadgeRef(u.badgeId.value)] else [])
    + ((if u.turmaId.Set? then [TurmaRef(u.turmaId.value)] else [])
    + (if u.dataEntrega.Set? then [DataEntrega(u.dataEntrega.value)] else [])))
  }

  /** `setattr(atv, field, value)`. */
  function SetAttr(a: Activity, f: Field): (b: Activity)
  {
    match f
    case Nome(v) => a.(nome := v)
    case Descricao(v) => a.(descricao := v)
    case NotaMax(v) => a.(notaMax := v)
    case Pontos(v) => a.(pontos := v)
    case BadgeRef(v) => a.(badgeId := v)
    case TurmaRef(v) => a.(turmaId := v)
    case DataEntrega(v) => a.(dataEntrega := v)
  }

  /** The `setattr` calls of a list of entries, applied front to back. */
  function ApplyAll(a: Activity, fs: seq<Field>): (b: Activity)
    decreases |fs|
  {
    if fs == [] then a else ApplyAll(SetAttr(a, fs[0]), fs[1..])
  }

  /** The row a partial update produces, column by column: a sent value (null included)
      replaces the column, an unset field leaves it alone, and the key never changes. */
  function Patched(a: Activity, u: ActivityUpdate): (b: Activity)
  {
    Activity(a.id,
             u.nome.Or(a.nome),
             u.descricao.Or(a.descricao),
             u.notaMax.Or(a.notaMax),
             u.pontos.Or(a.pontos),
             u.badgeId.Or(a.badgeId),
             u.turmaId.Or(a.turmaId),
             u.dataEntrega.Or(a.dataEntrega))
  }

  /** Running the `setattr` of an entry list made of at most one entry and a rest. */
  lemma ApplyAllFront(a: Activity, p: seq<Field>, rest: seq<Field>)
    requires |p| <= 1
    ensures ApplyAll(a, p + rest) == ApplyAll(if p == [] then a else SetAttr(a, p[0]), rest)
  {
    if p != [] {
      assert (p + rest)[1..] == rest;
    } else {
      assert p + rest == rest;
    }
  }

  /** The `setattr` calls for the sent fields among the last four columns. */
  lemma {:induction false} LaterDataApplies(a: Activity, u: ActivityUpdate)
    ensures ApplyAll(a, LaterData(u))
         == a.(pontos := u.pontos.Or(a.pontos), badgeId := u.badgeId.Or(a.badgeId),
               turmaId := u.turmaId.Or(a.turmaId), dataEntrega := u.dataEntrega.Or(a.dataEntrega))
  {
    var e4 := if u.pontos.Set? then [Pontos(u.pontos.value)] else [];
    var e5 := if u.badgeId.Set? then [BadgeRef(u.badgeId.value)] else [];
    var e6 := if u.turmaId.Set? then [TurmaRef(u.turmaId.value)] else [];
    var e7 := if u.dataEntrega.Set? then [DataEntrega(u.dataEntrega.value)] else [];
    var a4 := a.(pontos := u.pontos.Or(a.pontos));
    assert ApplyAll(a, e4 + (e5 + (e6 + e7))) == ApplyAll(a4, e5 + (e6 + e7)) by {
      ApplyAllFront(a, e4, e5 + (e6 + e7));
    }
    var a5 := a4.(badgeId := u.badgeId.Or(a.badgeId));
    assert ApplyAll(a4, e5 + (e6 + e7)) == ApplyAll(a5, e6 + e7) by {
      ApplyAllFront(a4, e5, e6 + e7);
    }
    var a6 := a5.(turmaId := u.turmaId.Or(a.turmaId));
    assert ApplyAll(a5, e6 + e7) == ApplyAll(a6, e7) by {
      ApplyAllFront(a5, e6, e7);
    }
    assert ApplyAll(a6, e7) == a6.(dataEntrega := u.dataEntrega.Or(a.dataEntrega)) by {
      ApplyAllFront(a6, e7, []);
      assert e7 + [] == e7;
    }
  }

  /** The `setattr` loop over `update_data` produces exactly the declarative patch. */
  lemma {:induction false} UpdateDataApplies(a: Activity, u: ActivityUpdate)
    ensures ApplyAll(a, UpdateData(u)) == Patched(a, u)
  {
    var e1 := if u.nome.Set? then [Nome(u.nome.value)] else [];
    var e2 := if u.descricao.Set? then [Descricao(u.descricao.value)] else [];
    var e3 := if u.notaMax.Set? then [NotaMax(u.notaMax.value)] else [];
    var rest := LaterData(u);
    var a1 := a.(nome := u.nome.Or(a.nome));
    assert ApplyAll(a, e1 + (e2 + (e3 + rest))) == ApplyAll(a1, e2 + (e3 + rest)) by {
      ApplyAllFront(a, e1, e2 + (e3 + rest));
    }
    var a2 := a1.(descricao := u.descricao.Or(a.descricao));
    assert ApplyAll(a1, e2 + (e3 + rest)) == ApplyAll(a2, e3 + rest) by {
      ApplyAllFront(a1, e2, e3 + rest);
    }
    var a3 := a2.(notaMax := u.notaMax.Or(a.notaMax));
    assert ApplyAll(a2, e3 + rest) == ApplyAll(a3, rest) by {
      ApplyAllFront(a2, e3, rest);
    }
    LaterDataApplies(a3, u);
  }

  /** Lines 141-144 of the handler: copy the row, then `setattr` each sent field in turn. */
  method SetAttrs(atv: Activity, u: ActivityUpdate) returns (r: Activity)
    ensures r == Patched(atv, u)
  {
    var data := UpdateData(u);
    r := atv;
    for i := 0 to |data|
      invariant ApplyAll(r, data[i..]) == ApplyAll(atv, data)
    {
      assert data[i..][1..] == data[i + 1..];
      r := SetAttr(r, data[i]);
    }
    assert data[|data|..] == [];
    UpdateDataApplies(atv, u);
  }

  /** The first reference of a new activity that names no row: badge, then class; an id of
      0 is not checked. */
  function CreateCheck(db: Db, req: ActivityCreate): (f: Option<Failure>)
  {
    if req.badgeId != 0 && req.badgeId !in db.badges then Some(BadgeNotFound)
    else if req.turmaId != 0 && req.turmaId !in db.classes then Some(ClassNotFound)
    else None
  }

  /** The row `create_atv` stores under the key `id` the database assigns. */
  function NewActivity(id: int, req: ActivityCreate): (a: Activity)
  {
    Activity(id, Some(req.nome), req.descricao, Some(req.notaMax), Some(req.pontos),
             if req.badgeId != 0 then Some(req.badgeId) else None,
             if req.turmaId != 0 then Some(req.turmaId) else None,
             Some(req.dataEntrega))
  }

  /** `create_atv`. */
  function Create(db: Db, req: ActivityCreate): (s: Step<Activity>)
    ensures s.res.Err? ==> s.db == db
  {
    match CreateCheck(db, req)
    case Some(f) => Step(db, Err(f))
    case None =>
      var atv := NewActivity(db.nextActivityId, req);
      Step(db.(activities := db.activities[atv.id := atv], nextActivityId := atv.id + 1), Ok(atv))
  }

  /** `get_atv_by_id`: the row under `id`, or 404. */
  function Get(db: Db, id: int): (r: Result<Activity>)
    ensures r.Ok? <==> id in db.activities
    ensures r.Ok? ==> r.value == db.activities[id]
    ensures r.Err? ==> r.failure == ActivityNotFound && ActivityNotFound.Status() == 404
  {
    if id in db.activities then Ok(db.activities[id]) else Err(ActivityNotFound)
  }

  /** The first guard of the update that fails: unknown activity, then a sent non-null badge,
      then a sent non-null class, that names no row. */
  function UpdateCheck(db: Db, id: int, u: ActivityUpdate): (f: Option<Failure>)
  {
    if id !in db.activities then Some(ActivityNotFound)
    else if u.badgeId.Set? && u.badgeId.value.Some? && u.badgeId.value.value !in db.badges then Some(BadgeNotFound)
    else if u.turmaId.Set? && u.turmaId.value.Some? && u.turmaId.value.value !in db.classes then Some(ClassNotFound)
    else None
  }

  /** `update_atv`. */
  function Update(db: Db, id: int, u: ActivityUpdate): (s: Step<Activity>)
    ensures s.res.Err? ==> s.db == db
  {
    match UpdateCheck(db, id, u)
    case Some(f) => Step(db, Err(f))
    case None =>
      var atv := Patched(db.activities[id], u);
      Step(db.(activities := db.activities[id := atv]), Ok(atv))
  }

  /** The completions left when those of activity `id` go with it, in their order. */
  function WithoutActivity(cs: seq<Completion>, id: int): (r: seq<Completion>)
    ensures |r| <= |cs|
    ensures forall c :: c in r <==> c in cs && c.atividadeId != id
    ensures forall c :: multiset(r)[c] == if c.atividadeId == id then 0 else multiset(cs)[c]
  {
    if cs == [] then []
    else
      assert cs == [cs[0]] + cs[1..];
      (if cs[0].atividadeId == id then [] else [cs[0]]) + WithoutActivity(cs[1..], id)
  }

  /** `delete_atv`: the row is deleted, and, as the model's cascade configuration is taken
      to say, its completion rows with it. */
  function Delete(db: Db, id: int): (s: Step<()>)
    ensures s.res.Err? ==> s.db == db
  {
    if id !in db.activities then Step(db, Err(ActivityNotFound))
    else Step(db.(activities := db.activities - {id},
                  completions := WithoutActivity(db.completions, id)), Ok(()))
  }

  /** `atribuir_nota_aluno`: the completion row is added with no check at all; `committed`
      is the database's verdict on the insert (a refused insert is rolled back, answer 500). */
  function AssignGrade(db: Db, matricula: string, atvId: int, nota: string, committed: bool): (s: Step<()>)
    ensures s.res.Err? ==> s.db == db
  {
    if committed then Step(db.(completions := db.completions + [Completion(matricula, atvId, nota)]), Ok(()))
    else Step(db, Err(StorageFailure))
  }

  // ----- Properties -----

  /** The badge reference is checked before the class reference, each answered 404 with
      the store unchanged; a reference of 0 is never checked. */
  lemma CreateGuardOrder(db: Db, req: ActivityCreate)
    ensures req.badgeId != 0 && req.badgeId !in db.badges ==>
      Create(db, req) == Step(db, Err(BadgeNotFound)) && BadgeNotFound.Status() == 404
    ensures (req.badgeId == 0 || req.badgeId in db.badges) && req.turmaId != 0 && req.turmaId !in db.classes ==>
      Create(db, req) == Step(db, Err(ClassNotFound)) && ClassNotFound.Status() == 404
    ensures Create(db, req).res.Ok? <==>
      (req.badgeId == 0 || req.badgeId in db.badges) && (req.turmaId == 0 || req.turmaId in db.classes)
  {
  }

  /** A successful create adds exactly one activity under a fresh key, copying nome,
      descricao, nota_max, pontos and data_entrega, and storing each reference as the found
      id or null for 0; no other row changes. */
  lemma CreateAddsOneActivity(db: Db, req: ActivityCreate)
    requires Good(db) && Create(db, req).res.Ok?
    ensures var s := Create(db, req); var a := s.res.value;
      && a.id !in db.activities
      && s.db.activities.Keys == db.activities.Keys + {a.id}
      && s.db.activities[a.id] == a
      && (forall k :: k in db.activities ==> s.db.activities[k] == db.activities[k])
      && a.nome == Some(req.nome) && a.descricao == req.descricao && a.notaMax == Some(req.notaMax)
      && a.pontos == Some(req.pontos) && a.dataEntrega == Some(req.dataEntrega)
      && a.badgeId == (if req.badgeId == 0 then None else Some(req.badgeId))
      && a.turmaId == (if req.turmaId == 0 then None else Some(req.turmaId))
      && s.db.(activities := db.activities, nextActivityId := db.nextActivityId) == db
  {
  }

  /** The create keeps the store consistent: the new key is below the counter, and its
      references name existing rows. */
  lemma CreatePreservesGood(db: Db, req: ActivityCreate)
    requires Good(db)
    ensures Good(Create(db, req).db)
  {
  }

  /** Lookup of an unknown id is answered 404; after a create the new row is found. */
  lemma GetAfterCreate(db: Db, req: ActivityCreate)
    requires Good(db) && Create(db, req).res.Ok?
    ensures var s := Create(db, req);
      Get(s.db, s.res.value.id) == Ok(s.res.value) && Get(db, s.res.value.id) == Err(ActivityNotFound)
  {
  }

  /** An unknown id is answered 404; a sent non-null badge or class that names no row is
      answered 404 before any field is written, badge first; an unset or null reference is
      never checked, and the update commits exactly when no guard fires. */
  lemma UpdateGuardOrder(db: Db, id: int, u: ActivityUpdate)
    ensures id !in db.activities ==> Update(db, id, u) == Step(db, Err(ActivityNotFound))
    ensures id in db.activities && u.badgeId.Set? && u.badgeId.value.Some? && u.badgeId.value.value !in db.badges ==>
      Update(db, id, u) == Step(db, Err(BadgeNotFound)) && BadgeNotFound.Status() == 404
    ensures id in db.activities && !(u.badgeId.Set? && u.badgeId.value.Some? && u.badgeId.value.value !in db.badges)
            && u.turmaId.Set? && u.turmaId.value.Some? && u.turmaId.value.value !in db.classes ==>
      Update(db, id, u) == Step(db, Err(ClassNotFound)) && ClassNotFound.Status() == 404
    ensures Update(db, id, u).res.Ok? <==>
      && id in db.activities
      && (u.badgeId.Set? && u.badgeId.value.Some? ==> u.badgeId.value.value in db.badges)
      && (u.turmaId.Set? && u.turmaId.value.Some? ==> u.turmaId.value.value in db.classes)
  {
  }

  /** A committed update writes exactly the sent fields, explicit nulls included, into that
      one row, and leaves every other field and every other row unchanged. */
  lemma UpdateWritesSentFields(db: Db, id: int, u: ActivityUpdate)
    requires Update(db, id, u).res.Ok?
    ensures var s := Update(db, id, u); var a, b := db.activities[id], s.res.value;
      && s.db.activities == db.activities[id := b]
      && s.db.(activities := db.activities) == db
      && b.id == a.id
      && b.nome == (if u.nome.Set? then u.nome.value else a.nome)
      && b.descricao == (if u.descricao.Set? then u.descricao.value else a.descricao)
      && b.notaMax == (if u.notaMax.Set? then u.notaMax.value else a.notaMax)
      && b.pontos == (if u.pontos.Set? then u.pontos.value else a.pontos)
      && b.badgeId == (if u.badgeId.Set? then u.badgeId.value else a.badgeId)
      && b.turmaId == (if u.turmaId.Set? then u.turmaId.value else a.turmaId)
      && b.dataEntrega == (if u.dataEntrega.Set? then u.dataEntrega.value else a.dataEntrega)
  {
  }

  /** Repeating a committed update answers the same row and changes nothing more. */
  lemma UpdateIdempotent(db: Db, id: int, u: ActivityUpdate)
    requires Update(db, id, u).res.Ok?
    ensures var s := Update(db, id, u); Update(s.db, id, u) == s
  {
  }

  /** The update keeps the store consistent: a written reference is null or was checked. */
  lemma UpdatePreservesGood(db: Db, id: int, u: ActivityUpdate)
    requires Good(db)
    ensures Good(Update(db, id, u).db)
  {
  }

  /** An unknown id is answered 404; a delete removes exactly that row and the completions
      of that activity, keeps the other completions, and a later lookup answers 404. */
  lemma DeleteRemovesActivity(db: Db, id: int)
    ensures id !in db.activities ==> Delete(db, id) == Step(db, Err(ActivityNotFound))
    ensures id in db.activities ==>
      var s := Delete(db, id);
      && s.res.Ok?
      && s.db.activities.Keys == db.activities.Keys - {id}
      && (forall k :: k in s.db.activities ==> s.db.activities[k] == db.activities[k])
      && (forall c :: c in s.db.completions <==> c in db.completions && c.atividadeId != id)
      && (forall c :: multiset(s.db.completions)[c]
                     == if c.atividadeId == id then 0 else multiset(db.completions)[c])
      && Get(s.db, id) == Err(ActivityNotFound)
      && s.db.(activities := db.activities, completions := db.completions) == db
  {
  }

  /** The delete keeps the store consistent. */
  lemma DeletePreservesGood(db: Db, id: int)
    requires Good(db)
    ensures Good(Delete(db, id).db)
  {
  }

  /** The grade insert appends one completion for any student, activity and grade, checks
      nothing, and changes nothing else (no xp, no level); a refused insert answers 500 and
      leaves the store as it was. */
  lemma AssignGradeInsertsOne(db: Db, matricula: string, atvId: int, nota: string, committed: bool)
    ensures var s := AssignGrade(db, matricula, atvId, nota, committed);
      committed ==>
        && s.res.Ok?
        && s.db.completions == db.completions + [Completion(matricula, atvId, nota)]
        && s.db.students == db.students
        && s.db.(completions := db.completions) == db
    ensures !committed ==>
      AssignGrade(db, matricula, atvId, nota, committed) == Step(db, Err(StorageFailure))
      && StorageFailure.Status() == 500
  {
  }

  /** The grade insert keeps the store consistent. */
  lemma AssignGradePreservesGood(db: Db, matricula: string, atvId: int, nota: string, committed: bool)
    requires Good(db)
    ensures Good(AssignGrade(db, matricula, atvId, nota, committed).db)
  {
  }
}
