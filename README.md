# xplearn-backend: the check-then-write core of the REST handlers

xplearn-backend is a FastAPI/SQLAlchemy backend for a classroom gamification
platform with students (`Aluno`), professors (`Professor`), activities
(`Atividade`), badges, avatars and classes (`Turma`). This project models the part
of it that decides things: the handlers that look rows up, run their guards in a
fixed order, and then either commit one write or raise an HTTP error and roll back.
It also models the `parse_badges` validator of the student response schema.

The model has three layers.

- `Entities` (entities.dfy) holds one datatype per table row. `Db` is a value
  snapshot of every table, and `Good(db)` is the consistency the handlers keep:
  - every row sits under its own key;
  - auto-increment keys lie below their counter;
  - no two students share a non-null nickname;
  - every reference a handler checked names an existing row.
  `Failure` lists every error a handler raises, with its HTTP status (400, 404 or 500).
- One module per router states each handler as a function from a snapshot to the
  next snapshot and the answer (`Step(db, res)`):
  - `Students` (aluno.dfy);
  - `Professors` (professor.dfy);
  - `Activities` (atividade.dfy);
  - `Badges` (badge.dfy);
  - `BadgeList` (badge_list.dfy) for `parse_badges`, which works on a list rather than the store.

  The lemmas beside these functions state what the handlers promise:
  - which guard fires first, and with which status;
  - that a failure leaves the store as it was;
  - that a success changes exactly one row, or appends one entry, and nothing else;
  - that omitted fields keep their value;
  - that `Good` is preserved.
- `Store.Database` (store.dfy) is the imperative form. It is a class whose fields
  are the tables. Each handler is a method that returns early on the first failing
  guard (the rollback) or writes its table once (the commit). Each method is proved
  to produce exactly the `Step` of its router function and to keep `Good`.
  `UpdateActivity` runs the handler's `setattr` loop (`Activities.SetAttrs`), which
  is proved equal to the field-by-field patch `Activities.Patched`.

`PyText` (pytext.dfy) models the pieces of Python string behaviour the handlers
depend on:
- `str.strip()` over the full `str.isspace()` character set;
- the truthiness of an optional string.

Collaborators that are not part of the model are passed in as parameters:
- password hashing is `hash: string -> string`;
- password verification is `verify: (string, string) -> bool`;
- the access token is an opaque `token: string`;
- the current date is `today`;
- the database's verdict on the grade insert is `committed: bool`.

The handlers do not validate a grade against bounds, do not compute XP or level, do
not avoid duplicate badge awards, do not undo a completion, and do not build a class
roster:
- `atribuir_nota_aluno` inserts the grade unchecked and changes no XP;
- xp and nivel are copied verbatim from the sign-up request;
- `conquistar_badge` appends an award even when the student already holds that badge.

The model does the same. `Activities.AssignGradeInsertsOne` and
`Badges.ConquerTwiceAwardsTwice` state this behaviour.

## Model

| member | source | states |
|---|---|---|
| PyText.TrimStart | app/routers/aluno.py:144 | the result is a suffix of the input that does not start with whitespace, and everything cut off before it is whitespace |
| PyText.TrimEnd | app/routers/aluno.py:144 | the result is a prefix of the input that does not end with whitespace, and everything cut off after it is whitespace |
| PyText.Strip | app/routers/aluno.py:144 | `strip()` is no longer than its input, and a non-empty result neither starts nor ends with whitespace |
| PyText.StripIsSlice | app/routers/aluno.py:144 | `strip()` returns the contiguous slice of the input that starts right after the leading whitespace |
| PyText.StripRemovesOnlySpace | app/routers/aluno.py:144 | every character `strip()` removes, on either side of the slice it keeps, is whitespace |
| PyText.StripEmptyIffBlank | app/routers/aluno.py:144 | `strip()` is empty exactly when the input is empty or all whitespace (both directions) |
| PyText.StripIdempotent | app/routers/aluno.py:144 | stripping twice gives the same result as stripping once |
| Students.NormalizeNickname | app/routers/aluno.py:142-144 | a supplied nickname becomes null exactly when it is blank; otherwise it becomes its stripped, non-empty form with no surrounding whitespace |
| Students.Create | app/routers/aluno.py:19-63 | a failed sign-up leaves the store unchanged |
| Students.CreateGuardOrder | app/routers/aluno.py:20-32 | a taken matricula gives 400, then a non-zero avatar id that names no avatar gives 404, then a nickname some student holds gives 400, each with the store unchanged; the sign-up succeeds exactly when none of the three applies |
| Students.CreateAddsOneStudent | app/routers/aluno.py:34-60 | a successful sign-up adds exactly one student under its matricula, with that matricula, the given nome, hash(senha), the given nickname, and xp, nivel and avatar id copied as given; no other row or table changes; the answer carries the matricula and the token |
| Students.CreatePreservesGood | app/routers/aluno.py:24-47 | the sign-up keeps the store consistent, and in particular keeps non-null nicknames unique |
| Students.Get | app/routers/aluno.py:97-105 | the lookup succeeds exactly when the matricula is a key, and then returns that row; otherwise it answers 404 |
| Students.GetAfterCreate | app/routers/aluno.py:100-105 | before a successful sign-up the lookup of that matricula answers 404; after it, the lookup returns the stored row |
| Students.Update | app/routers/aluno.py:127-199 | a failed update leaves the store unchanged |
| Students.UpdateGuardOrder | app/routers/aluno.py:129-138 | an unknown matricula gives 404 with the store unchanged; an unknown supplied avatar gives 404 before the nickname or password is considered |
| Students.UpdatedFields | app/routers/aluno.py:135-184 | supplied avatar and nome are written and omitted ones keep their value; a supplied nickname is stored stripped, or null when blank; a new password is stored hashed; matricula, xp and nivel never change |
| Students.UpdateCommitsOneRow | app/routers/aluno.py:186-195 | a committed update replaces only that student's row, with the updated row it answers; every other table is unchanged |
| Students.UpdateNicknameRule | app/routers/aluno.py:142-155 | the update is rejected for its nickname (400) exactly when the normalised nickname is non-null, differs from the student's own, and another student holds it; keeping one's own nickname is never rejected |
| Students.UpdatePasswordGuard | app/routers/aluno.py:162-184 | a committed password change had senha_atual supplied and verified against the stored hash, and nova_senha of at least 6 characters, and the new hash is stored; once the earlier guards pass, a missing senha_atual, a failed verification and a nova_senha under 6 characters each give their own 400 error, in that order, and roll the whole update back |
| Students.UpdateCommitsIff | app/routers/aluno.py:129-186 | the update commits exactly when the student exists, a supplied avatar exists, the nickname does not clash, and a requested password change has senha_atual supplied and verified and nova_senha of at least 6 characters |
| Students.UpdatePreservesGood | app/routers/aluno.py:142-155 | the update keeps the store consistent, and in particular keeps non-null nicknames unique |
| Professors.Create | app/routers/professor.py:18-58 | a failed sign-up leaves the store unchanged |
| Professors.CreateGuardOrder | app/routers/professor.py:19-27 | a taken matricula gives 400, then a non-zero avatar id that names no avatar gives 404, each with the store unchanged; the sign-up succeeds exactly when neither applies |
| Professors.CreateAddsOneProfessor | app/routers/professor.py:29-55 | a successful sign-up adds exactly one professor under its matricula, with that matricula, hash(senha), the given nome, and the found avatar's id (null when the id is 0); nothing else changes; the answer's token is "bearer " followed by the issued token |
| Professors.CreatePreservesGood | app/routers/professor.py:23-42 | the sign-up keeps the store consistent |
| Professors.Get | app/routers/professor.py:92-100 | the lookup succeeds exactly when the matricula is a key, and then returns that row; otherwise it answers 404 |
| Professors.GetAfterCreate | app/routers/professor.py:95-100 | before a successful sign-up the lookup answers 404; after it, the lookup returns the stored row |
| Professors.Update | app/routers/professor.py:122-178 | a failed update leaves the store unchanged |
| Professors.UpdateGuardOrder | app/routers/professor.py:124-133 | an unknown matricula gives 404; an unknown supplied avatar gives 404 before any password guard; both leave the store unchanged |
| Professors.UpdateCommitsOneRow | app/routers/professor.py:130-166 | a committed update replaces only that professor's row; the avatar changes only when one is supplied (and it exists), nome only when supplied, the password only when a new one is; the matricula never changes |
| Professors.UpdateCommitsIff | app/routers/professor.py:124-165 | the update commits exactly when the professor exists, a supplied avatar exists, and a requested password change has senha_atual supplied and verified and nova_senha of at least 6 characters; so an update that sends no new password commits once the first two guards pass |
| Professors.UpdatePasswordGuard | app/routers/professor.py:141-163 | once the avatar guard passes, a password change commits exactly when senha_atual is supplied, it verifies, and nova_senha has at least 6 characters; a missing senha_atual, a failed verification and a short nova_senha each give their own 400 error, in that order; each failure leaves the store unchanged (by `Professors.Update`'s own contract) |
| Professors.UpdatePreservesGood | app/routers/professor.py:130-134 | the update keeps the store consistent |
| Activities.UpdateDataApplies | app/routers/atividade.py:141-144 | running `setattr` over the sent entries of the update body yields exactly the field-by-field patch |
| Activities.SetAttrs | app/routers/atividade.py:141-144 | the `setattr` loop over `update_data` returns the row with every sent field (null included) written and every other field unchanged |
| Activities.Create | app/routers/atividade.py:20-53 | a failed create leaves the store unchanged |
| Activities.CreateGuardOrder | app/routers/atividade.py:21-31 | a non-zero badge id that names no badge gives 404 before a non-zero class id that names no class gives 404, each with the store unchanged; the create succeeds exactly when neither applies |
| Activities.CreateAddsOneActivity | app/routers/atividade.py:33-50 | a successful create adds exactly one activity under a fresh key, copying nome, descricao, nota_max, pontos and data_entrega, and storing each reference as the found id or null for 0; no other row changes |
| Activities.CreatePreservesGood | app/routers/atividade.py:21-48 | the create keeps the store consistent: the new key lies below the counter and its references name existing rows |
| Activities.Get | app/routers/atividade.py:89-97 | the lookup succeeds exactly when the id is a key, and then returns that row; otherwise it answers 404 |
| Activities.GetAfterCreate | app/routers/atividade.py:92-97 | the new activity's id is answered 404 before the create and found after it |
| Activities.Update | app/routers/atividade.py:123-152 | a failed update leaves the store unchanged |
| Activities.UpdateGuardOrder | app/routers/atividade.py:123-138 | an unknown id gives 404; a sent non-null badge that names no badge gives 404; otherwise a sent non-null class that names no class gives 404, whether the badge was unset, null or valid; no field is written in any of these cases; the update commits exactly when the id exists and every sent non-null reference names a row |
| Activities.UpdateWritesSentFields | app/routers/atividade.py:141-149 | a committed update writes exactly the sent fields, explicit nulls included, into that one row, keeps its key and every other field, and changes no other row or table |
| Activities.UpdateIdempotent | app/routers/atividade.py:141-146 | repeating a committed update answers the same row and leaves the store as the first one did |
| Activities.UpdatePreservesGood | app/routers/atividade.py:129-144 | the update keeps the store consistent: every written reference is null or was checked |
| Activities.WithoutActivity | app/routers/atividade.py:177-178 | the completions left after the cascade are exactly those of other activities, each as many times as before (as multisets), and the completions of the deleted activity are gone |
| Activities.Delete | app/routers/atividade.py:172-184 | a failed delete leaves the store unchanged |
| Activities.DeleteRemovesActivity | app/routers/atividade.py:172-181 | an unknown id gives 404 with the store unchanged; otherwise exactly that activity goes, with all its completions; every other completion stays with its multiplicity, the other rows stay, and a later lookup answers 404 |
| Activities.DeletePreservesGood | app/routers/atividade.py:177-179 | the delete keeps the store consistent |
| Activities.AssignGrade | app/routers/atividade.py:203-218 | a refused insert leaves the store unchanged |
| Activities.AssignGradeInsertsOne | app/routers/atividade.py:203-218 | a committed grade insert appends one completion (matricula, atv_id, nota) for any student, activity and grade, with no check and no change to students (no XP or level); a refused insert answers 500 and leaves the store unchanged |
| Activities.AssignGradePreservesGood | app/routers/atividade.py:203-210 | the grade insert keeps the store consistent |
| Badges.Create | app/routers/badge.py:17-27 | `create_badge` always succeeds |
| Badges.CreateAddsOneBadge | app/routers/badge.py:17-27 | a create adds exactly one badge under a fresh key with the given nome, requisito and caminho_foto; nothing else changes |
| Badges.CreatePreservesGood | app/routers/badge.py:17-25 | the create keeps the store consistent |
| Badges.Get | app/routers/badge.py:34-41 | the lookup succeeds exactly when the id is a key, and then returns that row; otherwise it answers 404 |
| Badges.GetAfterCreate | app/routers/badge.py:36-41 | the new badge's id is answered 404 before the create and found after it |
| Badges.Conquer | app/routers/badge.py:45-61 | a failed award leaves the store unchanged |
| Badges.ConquerGuardOrder | app/routers/badge.py:45-51 | an unknown student gives 404 whatever the badge, and only then an unknown badge gives 404; both leave the store unchanged |
| Badges.ConquerAppendsAward | app/routers/badge.py:53-61 | a successful award appends exactly one (matricula, badge_id, today) entry and changes nothing else |
| Badges.ConquerTwiceAwardsTwice | app/routers/badge.py:53-61 | nothing prevents a second award of the same badge: awarding twice leaves two entries |
| Badges.ConquerPreservesGood | app/routers/badge.py:45-60 | the award keeps the store consistent: every award names an existing student and badge |
| Badges.AwardsOf | app/routers/badge.py:70-85 | a student's listing holds each joined view exactly as many times as that student has awards with that view (counted independently by `ViewCount`, duplicates included), so its length is the student's award count (`AwardCount`) |
| Badges.AwardsOfOnlyTheirs | app/routers/badge.py:70-85 | every entry of a student's listing comes from an award of that student, joined with the badge's nome and caminho_foto and the award date |
| Badges.BadgesOf | app/routers/badge.py:63-85 | the listing answers 404 exactly for an unknown student; otherwise each joined view appears exactly as many times as that student has awards with that view, duplicates included |
| Badges.BadgesOfAfterConquer | app/routers/badge.py:63-85 | after an award, that student's listing gains exactly one entry at the end with the badge's nome and caminho_foto and the date, and every other student's listing is unchanged |
| BadgeList.Unwrapped | app/schemas/aluno.py:36-44 | the output has the input's length, and each item is the input item at the same position, unwrapped |
| BadgeList.ParseBadges | app/schemas/aluno.py:29-44 | a falsy input gives []; otherwise the output has the input's length, an association row at position i becomes its badge, any other item is kept, and the result equals `Unwrapped` |
| BadgeList.UnwrappedKeepsBadges | app/schemas/aluno.py:40-44 | a list that holds only badges comes back unchanged |
| BadgeList.UnwrappedIdempotent | app/schemas/aluno.py:36-44 | running the validator on its own output changes nothing |
| BadgeList.UnwrappedAppend | app/schemas/aluno.py:36-44 | the validator commutes with concatenation, so it keeps the order of the input |
| Store.Database.CreateStudent | app/routers/aluno.py:17-60 | the handler's new table state and answer are exactly `Students.Create` of the old state, and the store stays consistent |
| Store.Database.UpdateStudent | app/routers/aluno.py:122-199 | the in-place field assignments followed by commit or rollback give exactly `Students.Update` of the old state, and the store stays consistent |
| Store.Database.CreateProfessor | app/routers/professor.py:16-55 | the handler gives exactly `Professors.Create` of the old state, and the store stays consistent |
| Store.Database.UpdateProfessor | app/routers/professor.py:117-178 | the in-place field assignments followed by commit or rollback give exactly `Professors.Update` of the old state, and the store stays consistent |
| Store.Database.CreateActivity | app/routers/atividade.py:15-50 | the handler gives exactly `Activities.Create` of the old state, and the store stays consistent |
| Store.Database.UpdateActivity | app/routers/atividade.py:116-149 | the guards and the `setattr` loop give exactly `Activities.Update` of the old state, and the store stays consistent |
| Store.Database.DeleteActivity | app/routers/atividade.py:169-181 | the handler gives exactly `Activities.Delete` of the old state, cascade included, and the store stays consistent |
| Store.Database.AssignGrade | app/routers/atividade.py:201-218 | the handler gives exactly `Activities.AssignGrade` of the old state, and the store stays consistent |
| Store.Database.CreateBadge | app/routers/badge.py:15-27 | the handler gives exactly `Badges.Create` of the old state, and the store stays consistent |
| Store.Database.ConquerBadge | app/routers/badge.py:44-61 | the handler gives exactly `Badges.Conquer` of the old state, and the store stays consistent |

## Left out

- `app.security` (`hash_password`, `verify_password`, `create_access_token`, the expiry constant) is not part of this model. Hashing, verification and the issued token are parameters. The token's contents and expiry are not modelled.
- Session mechanics are not modelled: `refresh`, relationship loading, and the reload after commit in both update handlers. The reload (aluno.py:189-193, professor.py:168-172) cannot fail in a single-request model, so its 404 branch is left out.
- The `SQLAlchemyError`/`Exception` branches that answer 500 are left out, because the model has no failing database. The one exception is the grade insert, which checks nothing else, so a refused insert there is modelled with the `committed` parameter. The logging and the exact Portuguese messages are left out.
- The read-all endpoints (`get_alunos`, `get_profs`, `get_atvs`, `get_badges`) are left out. Each only returns a table's contents.
- `Decimal` (`nota_max`), `datetime` (`data_entrega`) and `date` (`data_conquista`) are opaque values. The handlers only copy them.
- The `icone` column of students and professors is left out. No core handler reads or writes it, and both sign-ups ignore the `icone` field of the request.
- `AlunoUpdate` is not defined in app/schemas/aluno.py, although `update_aluno` refers to it. The student update's fields (avatar_id_fk, nickname, nome, senha_atual, nova_senha, each optional) are inferred from what aluno.py:135-177 reads. The professor update follows `ProfessorUpdate`.
- Key and nickname comparisons (aluno.py:20, 30, 148-151, and the matricula and id lookups) are modelled as exact string or integer equality. The database and its collation are not part of this model, so a case-insensitive or trailing-space-insensitive collation, which would reject nicknames the model accepts, is not captured.
- The database's NOT NULL, unique and foreign-key constraints are not part of this model, so the store accepts what the handlers write:
  - an `avatar_id_fk` of 0 on a student;
  - an explicit null written by `update_atv`;
  - a completion that names an unknown student or activity.
- Activities.Delete: the cascade that removes an activity's completions is configured in the ORM model, which is not part of this model. The cascade is assumed, as the handler's comment says.
- Badges.AwardsOf: `get_badges_aluno` gives no ORDER BY, so the database's order is unspecified. The model lists awards in insertion order.
- The database's auto-increment keys are modelled as the counters `nextActivityId` and `nextBadgeId`, which start at 1 and never reuse a key.
- In-place mutation of an ORM object is modelled as a copy of the row whose fields are assigned and written back once at commit. Aliasing of the session's identity map is not modelled.
- The check of each answer against the route's response schema is not modelled. The model's `Ok` answers are the handlers' return values. Several response schemas declare as required a column that the handlers can store as null:
  - `ProfessorResponse.avatar_id_fk` (app/schemas/professor.py:25), null after a sign-up with avatar id 0 (professor.py:31);
  - `AtividadeRead.badge_id_fk` and `turma_id_fk` (app/schemas/atividade.py:33-34), null after a create with a 0 reference (atividade.py:33-34);
  - `AlunoResponse.nickname` (app/schemas/aluno.py:22), null after an update to a blank nickname (aluno.py:144).

  In those cases the framework would answer 500 after the write has committed, where the model answers `Ok`.
- Concurrency between requests is not modelled. Each request runs alone.
- The Pydantic declarations of the other schemas are used only as record shapes. This includes the turma validator `extract_professor_name`, a one-line projection.
- `parse_badges` items that have no `badge` attribute are represented as badge rows. The validator passes any such item through unchanged, whatever its type.
