/**
 * The badge table and the award list (`app/routers/badge.py`): creating and looking
 * up badges, awarding one to a student, and listing a student's awards.
 */
module Badges {
  import opened Entities

  /** The body of `POST /badges/`. */
  datatype BadgeCreate = BadgeCreate(nome: string, requisito: string, caminhoFoto: string)

  /** One entry of `get_badges_aluno`'s answer. */
  datatype AwardView = AwardView(badgeId: int, badgeNome: string, caminhoFoto: string, dataConquista: Date)

  /** `create_badge`: always succeeds; the database assigns the next key. */
  function Create(db: Db, req: BadgeCreate): (s: Step<Badge>)
    ensures s.res.Ok?
  {
    var b := Badge(db.nextBadgeId, req.nome, req.requisito, req.caminhoFoto);
    Step(db.(badges := db.badges[b.id := b], nextBadgeId := b.id + 1), Ok(b))
  }

  /** `get_badge_by_id`: the row under `id`, or 404. */
  function Get(db: Db, id: int): (r: Result<Badge>)
    ensures r.Ok? <==> id in db.badges
    ensures r.Ok? ==> r.value == db.badges[id]
    ensures r.Err? ==> r.failure == BadgeNotFound && BadgeNotFound.Status() == 404
  {
    if id in db.badges then Ok(db.badges[id]) else Err(BadgeNotFound)
  }

  /** `conquistar_badge`: an unknown student is answered first, then an unknown badge;
      otherwise an award stamped `today` is appended, whether or not the student already
      holds that badge. */
  function Conquer(db: Db, matricula: string, badgeId: int, today: Date): (s: Step<()>)
    ensures s.res.Err? ==> s.db == db
  {
    if matricula !in db.students then Step(db, Err(StudentNotFound))
    else if badgeId !in db.badges then Step(db, Err(BadgeNotFound))
    else Step(db.(awards := db.awards + [Award(matricula, badgeId, today)]), Ok(()))
  }

  /** An award joined with its badge row. */
  function View(a: Award, badges: map<int, Badge>): (v: AwardView)
    requires a.badgeId in badges
  {
    AwardView(a.badgeId, badges[a.badgeId].nome, badges[a.badgeId].caminhoFoto, a.dataConquista)
  }

  /** How many awards of `matricula` name an existing badge, counted from the front. */
  function AwardCount(awards: seq<Award>, badges: map<int, Badge>, matricula: string): (n: nat)
  {
    if awards == [] then 0
    else (if awards[0].matricula == matricula && awards[0].badgeId in badges then 1 else 0)
         + AwardCount(awards[1..], badges, matricula)
  }

  /** The count of a concatenation is the sum of the counts. */
  lemma {:induction false} AwardCountAppend(xs: seq<Award>, ys: seq<Award>, badges: map<int, Badge>, matricula: string)
    ensures AwardCount(xs + ys, badges, matricula) == AwardCount(xs, badges, matricula) + AwardCount(ys, badges, matricula)
    decreases |xs|
  {
    if xs == [] {
      assert xs + ys == ys;
    } else {
      assert (xs + ys)[1..] == xs[1..] + ys;
      AwardCountAppend(xs[1..], ys, badges, matricula);
    }
  }

  /** How many awards of `matricula` name an existing badge and are listed as `v`, counted
      from the front. */
  function ViewCount(awards: seq<Award>, badges: map<int, Badge>, matricula: string, v: AwardView): (n: nat)
  {
    if awards == [] then 0
    else (if awards[0].matricula == matricula && awards[0].badgeId in badges && View(awards[0], badges) == v
          then 1 else 0)
         + ViewCount(awards[1..], badges, matricula, v)
  }

  /** The per-view count of a concatenation is the sum of the counts. */
  lemma {:induction false} ViewCountAppend(xs: seq<Award>, ys: seq<Award>, badges: map<int, Badge>,
                                           matricula: string, v: AwardView)
    ensures ViewCount(xs + ys, badges, matricula, v)
         == ViewCount(xs, badges, matricula, v) + ViewCount(ys, badges, matricula, v)
    decreases |xs|
  {
    if xs == [] {
      assert xs + ys == ys;
    } else {
      assert (xs + ys)[1..] == xs[1..] + ys;
      ViewCountAppend(xs[1..], ys, badges, matricula, v);
    }
  }

  /** Appending one award adds one to the count of its own view, when it is listed at all. */
  lemma ViewCountSnoc(init: seq<Award>, last: Award, badges: map<int, Badge>, matricula: string)
    ensures forall v ::
      ViewCount(init + [last], badges, matricula, v)
      == ViewCount(init, badges, matricula, v)
         + (if last.matricula == matricula && last.badgeId in badges && View(last, badges) == v then 1 else 0)
  {
    forall v
      ensures ViewCount(init + [last], badges, matricula, v)
        == ViewCount(init, badges, matricula, v)
           + (if last.matricula == matricula && last.badgeId in badges && View(last, badges) == v then 1 else 0)
    {
      ViewCountAppend(init, [last], badges, matricula, v);
      assert [last][1..] == [];
    }
  }

  /** The awards of `matricula` joined with their badges, in the order they were added:
      exactly one entry per award of that student, and none of anyone else's. */
  function AwardsOf(awards: seq<Award>, badges: map<int, Badge>, matricula: string): (r: seq<AwardView>)
    ensures |r| == AwardCount(awards, badges, matricula) <= |awards|
    ensures forall v :: multiset(r)[v] == ViewCount(awards, badges, matricula, v)
    ensures forall i :: 0 <= i < |awards| && awards[i].matricula == matricula && awards[i].badgeId in badges ==>
      View(awards[i], badges) in r
    decreases |awards|
  {
    if awards == [] then []
    else
      var init, last := awards[..|awards| - 1], awards[|awards| - 1];
      assert forall i :: 0 <= i < |init| ==> init[i] == awards[i];
      assert init + [last] == awards;
      AwardCountAppend(init, [last], badges, matricula);
      ViewCountSnoc(init, last, badges, matricula);
      AwardsOf(init, badges, matricula)
      + (if last.matricula == matricula && last.badgeId in badges then [View(last, badges)] else [])
  }

  /** Every entry of a student's listing comes from an award of that student. */
  lemma {:induction false} AwardsOfOnlyTheirs(awards: seq<Award>, badges: map<int, Badge>, matricula: string)
    ensures forall v :: v in AwardsOf(awards, badges, matricula) ==>
      exists a :: a in awards && a.matricula == matricula && a.badgeId in badges && v == View(a, badges)
    decreases |awards|
  {
    if awards != [] {
      var init, last := awards[..|awards| - 1], awards[|awards| - 1];
      AwardsOfOnlyTheirs(init, badges, matricula);
      forall v | v in AwardsOf(awards, badges, matricula)
        ensures exists a :: a in awards && a.matricula == matricula && a.badgeId in badges && v == View(a, badges)
      {
        if v in AwardsOf(init, badges, matricula) {
          var a :| a in init && a.matricula == matricula && a.badgeId in badges && v == View(a, badges);
          assert a in awards;
        } else {
          assert last in awards;
        }
      }
    }
  }

  /** `get_badges_aluno`: 404 exactly for an unknown student; otherwise one entry per
      award of that student. */
  function BadgesOf(db: Db, matricula: string): (r: Result<seq<AwardView>>)
    ensures r.Err? <==> matricula !in db.students
    ensures r.Err? ==> r.failure == StudentNotFound && StudentNotFound.Status() == 404
    ensures r.Ok? ==> |r.value| == AwardCount(db.awards, db.badges, matricula)
    ensures r.Ok? ==> forall v :: multiset(r.value)[v] == ViewCount(db.awards, db.badges, matricula, v)
  {
    if matricula !in db.students then Err(StudentNotFound)
    else Ok(AwardsOf(db.awards, db.badges, matricula))
  }

  // ----- Properties -----

  /** A create adds exactly one badge, under a fresh key, with the given nome, requisito
      and caminho_foto; nothing else changes. */
  lemma CreateAddsOneBadge(db: Db, req: BadgeCreate)
    requires Good(db)
    ensures var s := Create(db, req); var b := s.res.value;
      && b.id !in db.badges
      && s.db.badges.Keys == db.badges.Keys + {b.id}
      && (forall k :: k in db.badges ==> s.db.badges[k] == db.badges[k])
      && b.nome == req.nome && b.requisito == req.requisito && b.caminhoFoto == req.caminhoFoto
      && s.db.(badges := db.badges, nextBadgeId := db.nextBadgeId) == db
  {
  }

  /** The create keeps the store consistent. */
  lemma CreatePreservesGood(db: Db, req: BadgeCreate)
    requires Good(db)
    ensures Good(Create(db, req).db)
  {
  }

  /** An unknown id is answered 404; after a create the new badge is found. */
  lemma GetAfterCreate(db: Db, req: BadgeCreate)
    requires Good(db)
    ensures var s := Create(db, req);
      && Get(db, s.res.value.id) == Err(BadgeNotFound) && BadgeNotFound.Status() == 404
      && Get(s.db, s.res.value.id) == Ok(s.res.value)
  {
  }

  /** An unknown student is answered 404 whatever the badge; only then is an unknown badge
      answered 404; both leave the store as it was. */
  lemma ConquerGuardOrder(db: Db, matricula: string, badgeId: int, today: Date)
    ensures matricula !in db.students ==>
      Conquer(db, matricula, badgeId, today) == Step(db, Err(StudentNotFound)) && StudentNotFound.Status() == 404
    ensures matricula in db.students && badgeId !in db.badges ==>
      Conquer(db, matricula, badgeId, today) == Step(db, Err(BadgeNotFound)) && BadgeNotFound.Status() == 404
  {
  }

  /** A successful award appends exactly one (matricula, badge, today) entry and changes
      nothing else. */
  lemma ConquerAppendsAward(db: Db, matricula: string, badgeId: int, today: Date)
    requires matricula in db.students && badgeId in db.badges
    ensures var s := Conquer(db, matricula, badgeId, today);
      && s.res.Ok?
      && s.db.awards == db.awards + [Award(matricula, badgeId, today)]
      && s.db.(awards := db.awards) == db
  {
  }

  /** Nothing stops a second award of the same badge: awarding twice leaves two entries. */
  lemma ConquerTwiceAwardsTwice(db: Db, matricula: string, badgeId: int, today: Date)
    requires matricula in db.students && badgeId in db.badges
    ensures var s1 := Conquer(db, matricula, badgeId, today);
      var s2 := Conquer(s1.db, matricula, badgeId, today);
      && s2.res.Ok?
      && s2.db.awards == db.awards + [Award(matricula, badgeId, today), Award(matricula, badgeId, today)]
  {
  }

  /** The award keeps the store consistent: every award names a student and a badge. */
  lemma ConquerPreservesGood(db: Db, matricula: string, badgeId: int, today: Date)
    requires Good(db)
    ensures Good(Conquer(db, matricula, badgeId, today).db)
  {
  }

  /** After an award, that student's listing
      gains exactly one entry at the end, with the badge's nome and caminho_foto and the award
      date, and every other student's listing is unchanged. */
  lemma BadgesOfAfterConquer(db: Db, matricula: string, badgeId: int, today: Date, other: string)
    requires matricula in db.students && badgeId in db.badges && other != matricula
    ensures var s := Conquer(db, matricula, badgeId, today);
      && BadgesOf(s.db, matricula).Ok?
      && BadgesOf(s.db, matricula).value
         == BadgesOf(db, matricula).value
            + [AwardView(badgeId, db.badges[badgeId].nome, db.badges[badgeId].caminhoFoto, today)]
      && BadgesOf(s.db, other) == BadgesOf(db, other)
  {
    var a := Award(matricula, badgeId, today);
    assert (db.awards + [a])[..|db.awards|] == db.awards;
    assert AwardsOf(db.awards, db.badges, other) + [] == AwardsOf(db.awards, db.badges, other);
  }
}
