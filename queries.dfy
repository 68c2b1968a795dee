/** Pure queries over the collections: the database lookups the handlers use
    (first matching document, filtered listing, counting), the read-only
    handlers, and the functions that specify what the mutating handlers
    write. */
module Queries {
  import opened Domain

  // ---------------------------------------------------------------------
  // Collection primitives
  // ---------------------------------------------------------------------

  /** Index of the first element satisfying `p`: the document `find_one`,
      `update_one` and `delete_one` act on. */
  function FindFirst<T>(s: seq<T>, p: T -> bool): (r: Option<nat>)
    ensures r.Some? ==> r.value < |s| && p(s[r.value])
    ensures r.Some? ==> forall k :: 0 <= k < r.value ==> !p(s[k])
    ensures r.None? <==> forall k :: 0 <= k < |s| ==> !p(s[k])
    decreases |s|
  {
    if |s| == 0 then None
    else if p(s[0]) then Some(0)
    else match FindFirst(s[1..], p)
      case None => None
      case Some(k) => Some(k + 1)
  }

  /** The elements satisfying `p`, in their stored order: the result of `find`
      with a query. */
  function Filter<T(!new)>(s: seq<T>, p: T -> bool): (r: seq<T>)
    ensures |r| <= |s|
    ensures forall x :: x in r <==> x in s && p(x)
    decreases |s|
  {
    if |s| == 0 then []
    else
      assert s == [s[0]] + s[1..];
      (if p(s[0]) then [s[0]] else []) + Filter(s[1..], p)
  }

  /** Nothing passes a filter that no element satisfies. */
  lemma {:induction false} FilterNone<T(!new)>(s: seq<T>, p: T -> bool)
    requires forall x <- s :: !p(x)
    ensures Filter(s, p) == []
    decreases |s|
  {
    if |s| > 0 {
      FilterNone(s[1..], p);
    }
  }

  /** Filtering keeps every element satisfying `p` as often as it occurs. */
  lemma {:induction false} FilterCounts<T(!new)>(s: seq<T>, p: T -> bool)
    ensures forall x :: multiset(Filter(s, p))[x] == if p(x) then multiset(s)[x] else 0
    decreases |s|
  {
    if |s| > 0 {
      assert s == [s[0]] + s[1..];
      FilterCounts(s[1..], p);
    }
  }

  // ---------------------------------------------------------------------
  // Equipment lookups and the registry invariant
  // ---------------------------------------------------------------------

  predicate HasTag(eqs: seq<Equipment>, tag: string) {
    exists k :: 0 <= k < |eqs| && eqs[k].numeroPatrimonio == tag
  }

  /** `find_one({"numero_patrimonio": tag})`. */
  function TagIndex(eqs: seq<Equipment>, tag: string): (r: Option<nat>)
    ensures r.Some? <==> HasTag(eqs, tag)
    ensures r.Some? ==> r.value < |eqs| && eqs[r.value].numeroPatrimonio == tag
  {
    FindFirst(eqs, (e: Equipment) => e.numeroPatrimonio == tag)
  }

  /** The id of the equipment carrying `tag`. */
  function IdOfTag(eqs: seq<Equipment>, tag: string): nat
    requires HasTag(eqs, tag)
  {
    eqs[TagIndex(eqs, tag).value].id
  }

  /** `find_one({"id": id})`. */
  function EquipmentIndex(eqs: seq<Equipment>, id: nat): (r: Option<nat>)
    ensures r.Some? ==> r.value < |eqs| && eqs[r.value].id == id
    ensures r.None? <==> forall k :: 0 <= k < |eqs| ==> eqs[k].id != id
  {
    FindFirst(eqs, (e: Equipment) => e.id == id)
  }

  /** `find_one({"id": id})` on the loans. */
  function LoanIndex(loans: seq<Loan>, id: nat): (r: Option<nat>)
    ensures r.Some? ==> r.value < |loans| && loans[r.value].id == id
    ensures r.None? <==> forall k :: 0 <= k < |loans| ==> loans[k].id != id
  {
    FindFirst(loans, (l: Loan) => l.id == id)
  }

  /** The positions of `s` whose element satisfies `p`. */
  ghost function Positions<T>(s: seq<T>, p: T -> bool): set<int> {
    set k | 0 <= k < |s| && p(s[k])
  }

  /** Extending a sequence adds its last position when that element passes. */
  lemma PositionsAppend<T>(t: seq<T>, x: T, p: T -> bool)
    ensures Positions(t + [x], p) == Positions(t, p) + (if p(x) then {|t|} else {})
  {
    var s := t + [x];
    assert forall k :: 0 <= k < |t| ==> s[k] == t[k];
  }

  /** The size of a filter is the number of positions whose element
      satisfies `p`. */
  lemma {:induction false} FilterSize<T(!new)>(s: seq<T>, p: T -> bool)
    ensures |Filter(s, p)| == |Positions(s, p)|
    decreases |s|
  {
    if |s| > 0 {
      var n := |s| - 1;
      var t := s[..n];
      assert t + [s[n]] == s;
      FilterSize(t, p);
      FilterAppend(t, s[n], p);
      PositionsAppend(t, s[n], p);
    }
  }

  /** Asset tags are unique across the registry. */
  predicate TagsUnique(eqs: seq<Equipment>) {
    forall i, j :: 0 <= i < j < |eqs| ==> eqs[i].numeroPatrimonio != eqs[j].numeroPatrimonio
  }

  /** Equipment ids are distinct and were all handed out before `next`. */
  predicate EquipmentIdsFresh(eqs: seq<Equipment>, next: nat) {
    && (forall i :: 0 <= i < |eqs| ==> eqs[i].id < next)
    && (forall i, j :: 0 <= i < j < |eqs| ==> eqs[i].id != eqs[j].id)
  }

  /** Loan ids are distinct and were all handed out before `next`. */
  predicate LoanIdsFresh(loans: seq<Loan>, next: nat) {
    && (forall i :: 0 <= i < |loans| ==> loans[i].id < next)
    && (forall i, j :: 0 <= i < j < |loans| ==> loans[i].id != loans[j].id)
  }

  /** A loan is stored as Devolvido exactly when its return date is recorded. */
  predicate ReturnsRecorded(loans: seq<Loan>) {
    forall i :: 0 <= i < |loans| ==>
      (loans[i].statusDevolucao == Devolvido <==> loans[i].dataDevolucaoReal.Some?)
  }

  /** The invariant the handlers keep over the stored collections, with
      `next` the next fresh id. */
  predicate Registry(eqs: seq<Equipment>, loans: seq<Loan>, next: nat) {
    && TagsUnique(eqs)
    && EquipmentIdsFresh(eqs, next)
    && LoanIdsFresh(loans, next)
    && ReturnsRecorded(loans)
  }

  /** Storing a loan with the next fresh id keeps loan ids distinct and fresh,
      and keeps Devolvido stored exactly when a return date is. */
  lemma InsertLoanKeepsRegistry(loans: seq<Loan>, l: Loan, next: nat)
    requires LoanIdsFresh(loans, next) && ReturnsRecorded(loans)
    requires l.id == next && (l.statusDevolucao == Devolvido <==> l.dataDevolucaoReal.Some?)
    ensures LoanIdsFresh(loans + [l], next + 1) && ReturnsRecorded(loans + [l])
  {
  }

  /** With unique tags, the lookup by tag finds exactly the equipment carrying it. */
  lemma TagIndexExact(eqs: seq<Equipment>, k: nat)
    requires TagsUnique(eqs) && k < |eqs|
    ensures TagIndex(eqs, eqs[k].numeroPatrimonio) == Some(k)
    ensures IdOfTag(eqs, eqs[k].numeroPatrimonio) == eqs[k].id
  {
  }

  /** Removing one record keeps tags unique and ids fresh. */
  lemma RemoveKeepsRegistry(eqs: seq<Equipment>, k: nat, next: nat)
    requires k < |eqs| && TagsUnique(eqs) && EquipmentIdsFresh(eqs, next)
    ensures TagsUnique(eqs[..k] + eqs[k + 1..]) && EquipmentIdsFresh(eqs[..k] + eqs[k + 1..], next)
  {
    var r := eqs[..k] + eqs[k + 1..];
    assert forall i :: 0 <= i < |r| ==> r[i] == eqs[if i < k then i else i + 1];
  }

  // ---------------------------------------------------------------------
  // Equipment records written by the handlers
  // ---------------------------------------------------------------------

  /** The record `create_equipment` stores; a missing status defaults to Disponível. */
  function NewEquipment(req: EquipmentCreate, id: nat, now: int): (e: Equipment)
    ensures e.numeroPatrimonio == req.numeroPatrimonio && e.id == id
    ensures e.numeroSerie == req.numeroSerie && e.marca == req.marca && e.modelo == req.modelo
    ensures e.tipoEquipamento == req.tipoEquipamento && e.departamentoAtual == req.departamentoAtual
    ensures e.responsavelAtual == req.responsavelAtual
    ensures e.status == (if req.status.None? then Disponivel else req.status.value)
    ensures e.termoResponsabilidade.None? && e.createdAt == now && e.updatedAt == now
  {
    Equipment(id, req.numeroPatrimonio, req.numeroSerie, req.marca, req.modelo,
              req.tipoEquipamento, req.departamentoAtual, req.responsavelAtual,
              None, req.status.GetOr(Disponivel), now, now)
  }

  /** The record the spreadsheet import stores for one accepted row. */
  function FromRow(row: ImportRow, id: nat, now: int): (e: Equipment)
    ensures e.numeroPatrimonio == row.numeroPatrimonio && e.id == id
    ensures e.numeroSerie == row.numeroSerie && e.marca == row.marca && e.modelo == row.modelo
    ensures e.tipoEquipamento == row.tipoEquipamento && e.departamentoAtual == row.departamentoAtual
    ensures e.responsavelAtual == row.responsavelAtual
    ensures e.status == row.status && e.termoResponsabilidade.None?
    ensures e.createdAt == now && e.updatedAt == now
  {
    Equipment(id, row.numeroPatrimonio, row.numeroSerie, row.marca, row.modelo,
              row.tipoEquipamento, row.departamentoAtual, row.responsavelAtual,
              None, row.status, now, now)
  }

  /** The partial overwrite of `update_equipment`: every field supplied
      (non-null) replaces the stored one; the asset tag, id, attached termo
      and creation time cannot change. */
  function ApplyUpdate(e: Equipment, u: EquipmentUpdate, now: int): (r: Equipment)
    ensures r.id == e.id && r.numeroPatrimonio == e.numeroPatrimonio
    ensures r.termoResponsabilidade == e.termoResponsabilidade && r.createdAt == e.createdAt
    ensures u.status.Some? ==> r.status == u.status.value
    ensures u.status.None? ==> r.status == e.status
    ensures u.numeroSerie.Some? ==> r.numeroSerie == u.numeroSerie.value
    ensures u.numeroSerie.None? ==> r.numeroSerie == e.numeroSerie
    ensures u.marca.Some? ==> r.marca == u.marca.value
    ensures u.marca.None? ==> r.marca == e.marca
    ensures u.modelo.Some? ==> r.modelo == u.modelo.value
    ensures u.modelo.None? ==> r.modelo == e.modelo
    ensures u.tipoEquipamento.Some? ==> r.tipoEquipamento == u.tipoEquipamento.value
    ensures u.tipoEquipamento.None? ==> r.tipoEquipamento == e.tipoEquipamento
    ensures u.departamentoAtual.Some? ==> r.departamentoAtual == u.departamentoAtual.value
    ensures u.departamentoAtual.None? ==> r.departamentoAtual == e.departamentoAtual
    ensures u.responsavelAtual.Some? ==> r.responsavelAtual == u.responsavelAtual
    ensures u.responsavelAtual.None? ==> r.responsavelAtual == e.responsavelAtual
    ensures r.updatedAt == now
  {
    e.(numeroSerie := u.numeroSerie.GetOr(e.numeroSerie),
       marca := u.marca.GetOr(e.marca),
       modelo := u.modelo.GetOr(e.modelo),
       tipoEquipamento := u.tipoEquipamento.GetOr(e.tipoEquipamento),
       departamentoAtual := u.departamentoAtual.GetOr(e.departamentoAtual),
       responsavelAtual := if u.responsavelAtual.Some? then u.responsavelAtual else e.responsavelAtual,
       status := u.status.GetOr(e.status),
       updatedAt := now)
  }

  /** An update that supplies nothing only refreshes the modification time. */
  lemma EmptyUpdateOnlyTouches(e: Equipment, now: int)
    ensures ApplyUpdate(e, EquipmentUpdate(None, None, None, None, None, None, None), now)
         == e.(updatedAt := now)
  {
  }

  /** Applying the same update twice is the same as applying it once. */
  lemma UpdateIdempotent(e: Equipment, u: EquipmentUpdate, t1: int, t2: int)
    ensures ApplyUpdate(ApplyUpdate(e, u, t1), u, t2) == ApplyUpdate(e, u, t2)
  {
  }

  /** `before` with every equipment whose tag is listed set to `status` at
      `now`: the per-tag `update_one` of the loan and return loops. */
  function StatusSet(before: seq<Equipment>, tags: seq<string>, status: string, now: int): (after: seq<Equipment>)
    ensures |after| == |before|
  {
    seq(|before|, k requires 0 <= k < |before| =>
      if before[k].numeroPatrimonio in tags then before[k].(status := status, updatedAt := now) else before[k])
  }

  /** The history entries of the loan and return loops: one per listed tag, in
      list order, with consecutive fresh ids from `firstId`. */
  function Logged(eqs: seq<Equipment>, tags: seq<string>, firstId: nat, action: Action,
                  description: Description, user: string, now: int): (r: seq<HistoryEntry>)
    requires forall t <- tags :: HasTag(eqs, t)
    ensures |r| == |tags|
  {
    seq(|tags|, j requires 0 <= j < |tags| =>
      HistoryEntry(firstId + j, IdOfTag(eqs, tags[j]), action, description, user, now))
  }

  /** Entry `j` of the loop's history records tag `j` of the list: it takes
      id `firstId + j`, names the id of an equipment carrying that tag, and
      carries the loop's action, description, user and time. */
  lemma LoggedEntries(eqs: seq<Equipment>, tags: seq<string>, firstId: nat, action: Action,
                      description: Description, user: string, now: int, j: nat)
    requires forall t <- tags :: HasTag(eqs, t)
    requires j < |tags|
    ensures var h := Logged(eqs, tags, firstId, action, description, user, now)[j];
      && h.id == firstId + j
      && (exists k :: 0 <= k < |eqs| && eqs[k].numeroPatrimonio == tags[j] && eqs[k].id == h.equipmentId)
      && h.action == action && h.description == description && h.user == user && h.timestamp == now
  {
    var k := TagIndex(eqs, tags[j]).value;
    assert eqs[k].id == Logged(eqs, tags, firstId, action, description, user, now)[j].equipmentId;
  }

  /** Setting a status by tag changes only the equipment listed, and only its
      status and modification time; the registry's tags and ids are kept. */
  lemma {:induction false} StatusSetEffect(before: seq<Equipment>, tags: seq<string>, status: string, now: int, k: nat)
    requires k < |before|
    ensures var after := StatusSet(before, tags, status, now);
      && after[k].id == before[k].id
      && after[k].numeroPatrimonio == before[k].numeroPatrimonio
      && (before[k].numeroPatrimonio in tags ==> after[k].status == status && after[k].updatedAt == now)
      && (before[k].numeroPatrimonio !in tags ==> after[k] == before[k])
      && after[k].(status := before[k].status, updatedAt := before[k].updatedAt) == before[k]
  {
  }

  /** Setting statuses keeps every record's tag and id, hence the lookups by
      tag and the registry invariant. */
  lemma StatusSetKeepsRegistry(before: seq<Equipment>, tags: seq<string>, status: string, now: int, next: nat)
    ensures var after := StatusSet(before, tags, status, now);
      && (forall k :: 0 <= k < |after| ==> after[k].numeroPatrimonio == before[k].numeroPatrimonio && after[k].id == before[k].id)
      && (forall t :: HasTag(after, t) <==> HasTag(before, t))
      && (TagsUnique(after) <==> TagsUnique(before))
      && (EquipmentIdsFresh(after, next) <==> EquipmentIdsFresh(before, next))
  {
    var after := StatusSet(before, tags, status, now);
    forall t ensures HasTag(after, t) <==> HasTag(before, t) {
      if HasTag(before, t) {
        var k :| 0 <= k < |before| && before[k].numeroPatrimonio == t;
        assert after[k].numeroPatrimonio == t;
      }
    }
  }

  /** The index of the first listed tag that no equipment carries, or the
      list's length: how far the return loop gets before it fails. */
  function FirstMissing(eqs: seq<Equipment>, tags: seq<string>): (r: nat)
    ensures r <= |tags|
    ensures forall j :: 0 <= j < r ==> HasTag(eqs, tags[j])
    ensures r < |tags| ==> !HasTag(eqs, tags[r])
    ensures forall t <- tags[..r] :: HasTag(eqs, t)
  {
    match FindFirst(tags, (t: string) => !HasTag(eqs, t))
    case None => |tags|
    case Some(i) => i
  }

  /** A prefix one longer holds exactly one more element. */
  lemma PrefixGrows<T>(s: seq<T>, i: nat)
    requires i < |s|
    ensures forall x :: x in s[..i + 1] <==> x in s[..i] || x == s[i]
  {
    assert s[..i + 1] == s[..i] + [s[i]];
  }

  /** One more handled tag: with unique tags, the lookup in the partly
      updated registry finds the same record as in the original one, and the
      status write lands on that record only. */
  lemma StatusSetStep(before: seq<Equipment>, tags: seq<string>, i: nat, status: string, now: int)
    requires TagsUnique(before) && i < |tags| && HasTag(before, tags[i])
    ensures var cur := StatusSet(before, tags[..i], status, now);
      var k := TagIndex(before, tags[i]).value;
      && TagIndex(cur, tags[i]) == Some(k)
      && cur[k].id == IdOfTag(before, tags[i])
      && StatusSet(before, tags[..i + 1], status, now) == cur[k := cur[k].(status := status, updatedAt := now)]
  {
    var cur := StatusSet(before, tags[..i], status, now);
    var k := TagIndex(before, tags[i]).value;
    TagIndexExact(before, k);
    StatusSetKeepsRegistry(before, tags[..i], status, now, 0);
    TagIndexExact(cur, k);
    PrefixGrows(tags, i);
    var next := StatusSet(before, tags[..i + 1], status, now);
    forall m | 0 <= m < |before|
      ensures next[m] == cur[k := cur[k].(status := status, updatedAt := now)][m]
    {
      if m != k {
        assert before[m].numeroPatrimonio != tags[i];
      }
    }
  }

  /** One more handled tag adds one history entry, for that tag's record. */
  lemma LoggedStep(eqs: seq<Equipment>, tags: seq<string>, i: nat, firstId: nat, action: Action,
                   description: Description, user: string, now: int)
    requires i < |tags|
    requires forall t <- tags[..i + 1] :: HasTag(eqs, t)
    ensures forall t <- tags[..i] :: HasTag(eqs, t)
    ensures Logged(eqs, tags[..i + 1], firstId, action, description, user, now)
         == Logged(eqs, tags[..i], firstId, action, description, user, now)
            + [HistoryEntry(firstId + i, IdOfTag(eqs, tags[i]), action, description, user, now)]
  {
    assert tags[..i + 1] == tags[..i] + [tags[i]];
  }

  /** The state of the per-tag loop after it has handled the first `i` tags,
      starting from `eqs0`, `history0` and `id0`: the equipments `eqs`, the
      history `hist` and the next fresh id `next`. */
  ghost predicate StampedState(eqs: seq<Equipment>, hist: seq<HistoryEntry>, next: nat,
                               eqs0: seq<Equipment>, history0: seq<HistoryEntry>, id0: nat, tags: seq<string>, i: nat,
                               status: string, action: Action, description: Description, user: string, now: int)
  {
    && i <= |tags|
    && TagsUnique(eqs0) && EquipmentIdsFresh(eqs0, id0)
    && (forall t <- tags[..i] :: HasTag(eqs0, t))
    && eqs == StatusSet(eqs0, tags[..i], status, now)
    && hist == history0 + Logged(eqs0, tags[..i], id0, action, description, user, now)
    && next == id0 + i
  }

  /** One step of the per-tag loop: updating the equipment found for the
      `i`th tag and appending its entry advances the loop state by one tag
      and keeps the registry's tags unique and its ids fresh. */
  lemma StampAdvance(eqs: seq<Equipment>, hist: seq<HistoryEntry>, next: nat,
                     eqs0: seq<Equipment>, history0: seq<HistoryEntry>, id0: nat, tags: seq<string>, i: nat, k: nat,
                     status: string, action: Action, description: Description, user: string, now: int)
    requires StampedState(eqs, hist, next, eqs0, history0, id0, tags, i, status, action, description, user, now)
    requires i < |tags| && TagIndex(eqs, tags[i]) == Some(k)
    ensures TagsUnique(eqs) && EquipmentIdsFresh(eqs, next)
    ensures TagsUnique(eqs[k := eqs[k].(status := status, updatedAt := now)])
    ensures EquipmentIdsFresh(eqs[k := eqs[k].(status := status, updatedAt := now)], next)
    ensures forall t <- tags[..i + 1] :: HasTag(eqs0, t)
    ensures eqs[k := eqs[k].(status := status, updatedAt := now)] == StatusSet(eqs0, tags[..i + 1], status, now)
    ensures hist + [HistoryEntry(next, eqs[k].id, action, description, user, now)]
         == history0 + Logged(eqs0, tags[..i + 1], id0, action, description, user, now)
  {
    StatusSetKeepsRegistry(eqs0, tags[..i], status, now, next);
    StatusSetStep(eqs0, tags, i, status, now);
    var eqs' := eqs[k := eqs[k].(status := status, updatedAt := now)];
    StatusSetKeepsRegistry(eqs0, tags[..i + 1], status, now, next);
    PrefixGrows(tags, i);
    LoggedStep(eqs0, tags, i, id0, action, description, user, now);
    var entry := HistoryEntry(id0 + i, IdOfTag(eqs0, tags[i]), action, description, user, now);
    assert HistoryEntry(next, eqs[k].id, action, description, user, now) == entry;
    assert (hist + [entry]) == history0 + (Logged(eqs0, tags[..i], id0, action, description, user, now) + [entry]);
  }

  /** The loop stops at `i` exactly when every earlier tag is carried and the
      `i`th is not. */
  lemma FirstMissingAt(eqs: seq<Equipment>, tags: seq<string>, i: nat)
    requires i <= |tags|
    requires forall t <- tags[..i] :: HasTag(eqs, t)
    requires i < |tags| ==> !HasTag(eqs, tags[i])
    ensures FirstMissing(eqs, tags) == i
  {
  }

  /** A list that passes the loan check has no missing tag, so the per-tag
      loop handles all of it. */
  lemma LoanablePassesAll(eqs: seq<Equipment>, tags: seq<string>)
    requires forall t <- tags :: Loanable(eqs, t)
    ensures FirstMissing(eqs, tags) == |tags|
  {
    assert tags[..|tags|] == tags;
    FirstMissingAt(eqs, tags, |tags|);
  }

  // ---------------------------------------------------------------------
  // Loan validation (the first loop of create_loan)
  // ---------------------------------------------------------------------

  /** A listed tag passes the check: some equipment carries it and the first
      such is not Emprestado. Any other status passes. */
  predicate Loanable(eqs: seq<Equipment>, tag: string) {
    HasTag(eqs, tag) && eqs[TagIndex(eqs, tag).value].status != Emprestado
  }

  /** With unique tags, a tag passes the check exactly when some equipment
      carries it in a status other than Emprestado. */
  lemma LoanableIff(eqs: seq<Equipment>, tag: string)
    requires TagsUnique(eqs)
    ensures Loanable(eqs, tag) <==>
              exists k :: 0 <= k < |eqs| && eqs[k].numeroPatrimonio == tag && eqs[k].status != Emprestado
  {
    if k :| 0 <= k < |eqs| && eqs[k].numeroPatrimonio == tag && eqs[k].status != Emprestado {
      assert TagIndex(eqs, tag) == Some(k);
    }
  }

  /** The error a tag that fails the check raises. */
  function RejectionOf(eqs: seq<Equipment>, tag: string): Error {
    if HasTag(eqs, tag) then BadRequest(AlreadyLoaned(tag)) else NotFound(EquipmentTag(tag))
  }

  /** Tag `i` is the first listed tag that fails the check. */
  predicate FirstFailure(eqs: seq<Equipment>, tags: seq<string>, i: int) {
    && 0 <= i < |tags|
    && !Loanable(eqs, tags[i])
    && forall j :: 0 <= j < i ==> Loanable(eqs, tags[j])
  }

  /** A first failure after a passing head is the first failure of the whole
      list, one position later. */
  lemma FirstFailureShift(eqs: seq<Equipment>, tags: seq<string>, i: nat)
    requires |tags| > 0 && Loanable(eqs, tags[0]) && FirstFailure(eqs, tags[1..], i)
    ensures FirstFailure(eqs, tags, i + 1) && tags[i + 1] == tags[1..][i]
  {
    forall j | 0 <= j < i + 1 ensures Loanable(eqs, tags[j]) {
      if j > 0 {
        assert tags[j] == tags[1..][j - 1];
      }
    }
  }

  /** The outcome of checking the listed tags in order: None when all pass,
      otherwise the error of the first tag that fails. */
  function LoanCheck(eqs: seq<Equipment>, tags: seq<string>): (r: Option<Error>)
    ensures r.None? <==> forall t <- tags :: Loanable(eqs, t)
    ensures r.Some? ==> exists i :: FirstFailure(eqs, tags, i) && r.value == RejectionOf(eqs, tags[i])
    decreases |tags|
  {
    if |tags| == 0 then None
    else if !Loanable(eqs, tags[0]) then
      assert FirstFailure(eqs, tags, 0);
      Some(RejectionOf(eqs, tags[0]))
    else
      var rest := LoanCheck(eqs, tags[1..]);
      assert forall t <- tags :: t == tags[0] || t in tags[1..];
      if rest.Some? then
        assert exists i :: FirstFailure(eqs, tags, i) && rest.value == RejectionOf(eqs, tags[i]) by {
          var i' :| FirstFailure(eqs, tags[1..], i') && rest.value == RejectionOf(eqs, tags[1..][i']);
          FirstFailureShift(eqs, tags, i');
        }
        rest
      else rest
  }

  /** The check is exactly "every tag is known and not Emprestado": an
      unknown tag gives 404, a loaned one 400. */
  lemma {:induction false} LoanCheckFailsOn(eqs: seq<Equipment>, tags: seq<string>, t: string)
    requires t in tags
    ensures !HasTag(eqs, t) ==> LoanCheck(eqs, tags).Some?
    ensures HasTag(eqs, t) && eqs[TagIndex(eqs, t).value].status == Emprestado ==> LoanCheck(eqs, tags).Some?
    ensures LoanCheck(eqs, tags).Some? ==> LoanCheck(eqs, tags).value.NotFound? || LoanCheck(eqs, tags).value.BadRequest?
  {
    if !Loanable(eqs, t) {
      assert !(forall u <- tags :: Loanable(eqs, u));
    }
  }

  // ---------------------------------------------------------------------
  // Loans: listing and the overdue rewrite
  // ---------------------------------------------------------------------

  function NewLoan(req: LoanCreate, id: nat, now: int): (l: Loan)
    ensures l.statusDevolucao == Pendente && l.dataDevolucaoReal.None?
    ensures l.equipments == req.equipments && l.id == id
    ensures l.dataEmprestimo == req.dataEmprestimo && l.dataPrevistaDevolucao == req.dataPrevistaDevolucao
    ensures l.nomeSolicitante == req.nomeSolicitante && l.departamentoSolicitante == req.departamentoSolicitante
    ensures l.createdAt == now
  {
    Loan(id, req.dataEmprestimo, req.nomeSolicitante, req.departamentoSolicitante,
         req.dataPrevistaDevolucao, None, Pendente, req.equipments, now)
  }

  /** The loan filter of `get_loans`: stored status by name, and a pattern
      matched against the requester's name or department. */
  predicate LoanMatches(l: Loan, statusFilter: string, search: string, re: Matcher) {
    && (statusFilter == "" || l.statusDevolucao.Name() == statusFilter)
    && (search == "" || re(search, l.nomeSolicitante) || re(search, l.departamentoSolicitante))
  }

  function MatchingLoans(loans: seq<Loan>, statusFilter: string, search: string, re: Matcher): (r: seq<Loan>)
    ensures forall l :: l in r <==> l in loans && LoanMatches(l, statusFilter, search, re)
  {
    Filter(loans, (l: Loan) => LoanMatches(l, statusFilter, search, re))
  }

  predicate IsOverdue(l: Loan, now: int) {
    l.statusDevolucao == Pendente && now > l.dataPrevistaDevolucao
  }

  /** A loan as `get_loans` returns and stores it at time `now`: a Pendente
      loan whose due date is strictly before `now` becomes Atrasado; nothing
      else about any loan changes. */
  function Refreshed(l: Loan, now: int): (r: Loan)
    ensures !IsOverdue(r, now)
    ensures r.statusDevolucao == Atrasado <==> l.statusDevolucao == Atrasado || IsOverdue(l, now)
    ensures r.statusDevolucao == Devolvido <==> l.statusDevolucao == Devolvido
    ensures l.statusDevolucao != Pendente ==> r == l
    ensures r.(statusDevolucao := l.statusDevolucao) == l
  {
    if IsOverdue(l, now) then l.(statusDevolucao := Atrasado) else l
  }

  function RefreshAll(ls: seq<Loan>, now: int): (r: seq<Loan>)
    ensures |r| == |ls|
  {
    seq(|ls|, j requires 0 <= j < |ls| => Refreshed(ls[j], now))
  }

  /** The stored loans after each loan of `listed` was refreshed in place.
      Only statuses change, and never to or from Devolvido. */
  function RefreshIn(loans: seq<Loan>, listed: seq<Loan>, now: int): (r: seq<Loan>)
    ensures |r| == |loans|
    ensures forall k :: 0 <= k < |loans| ==>
      && r[k].id == loans[k].id
      && r[k].dataDevolucaoReal == loans[k].dataDevolucaoReal
      && (r[k].statusDevolucao == Devolvido <==> loans[k].statusDevolucao == Devolvido)
  {
    seq(|loans|, k requires 0 <= k < |loans| =>
      if loans[k] in listed then Refreshed(loans[k], now) else loans[k])
  }

  /** The stored loans after a listing: only those the query matched are
      rewritten. */
  function RefreshMatching(loans: seq<Loan>, statusFilter: string, search: string, re: Matcher, now: int): (r: seq<Loan>)
    ensures |r| == |loans|
    ensures forall k :: 0 <= k < |loans| && LoanMatches(loans[k], statusFilter, search, re) ==> r[k] == Refreshed(loans[k], now)
    ensures forall k :: 0 <= k < |loans| && !LoanMatches(loans[k], statusFilter, search, re) ==> r[k] == loans[k]
  {
    RefreshIn(loans, MatchingLoans(loans, statusFilter, search, re), now)
  }

  /** Refreshing keeps loan ids distinct and fresh, and Devolvido stored
      exactly when a return date is. */
  lemma {:induction false} RefreshInKeepsRegistry(loans: seq<Loan>, listed: seq<Loan>, now: int, next: nat)
    requires LoanIdsFresh(loans, next) && ReturnsRecorded(loans)
    ensures LoanIdsFresh(RefreshIn(loans, listed, now), next) && ReturnsRecorded(RefreshIn(loans, listed, now))
  {
    var r := RefreshIn(loans, listed, now);
    forall i | 0 <= i < |r|
      ensures r[i].statusDevolucao == Devolvido <==> r[i].dataDevolucaoReal.Some?
    {
      assert loans[i].statusDevolucao == Devolvido <==> loans[i].dataDevolucaoReal.Some?;
    }
  }

  /** With distinct ids, the lookup by a stored loan's id finds that loan's
      record, also after refreshing. */
  lemma RefreshInLookup(loans: seq<Loan>, listed: seq<Loan>, j: nat, now: int, next: nat)
    requires LoanIdsFresh(loans, next) && j < |loans|
    ensures LoanIndex(RefreshIn(loans, listed, now), loans[j].id) == Some(j)
  {
    var cur := RefreshIn(loans, listed, now);
    assert cur[j].id == loans[j].id;
  }

  /** One more listed loan: only its own record can change, and only to
      Atrasado when it is overdue. */
  lemma RefreshInExtend(loans: seq<Loan>, listed: seq<Loan>, j: nat, now: int, next: nat)
    requires LoanIdsFresh(loans, next) && j < |loans|
    ensures var cur := RefreshIn(loans, listed, now);
      && (IsOverdue(loans[j], now) ==>
            RefreshIn(loans, listed + [loans[j]], now) == cur[j := cur[j].(statusDevolucao := Atrasado)])
      && (!IsOverdue(loans[j], now) ==> RefreshIn(loans, listed + [loans[j]], now) == cur)
  {
    var cur := RefreshIn(loans, listed, now);
    var next := RefreshIn(loans, listed + [loans[j]], now);
    forall m | 0 <= m < |loans|
      ensures next[m] == if m == j && IsOverdue(loans[j], now) then cur[j].(statusDevolucao := Atrasado) else cur[m]
    {
      assert loans[m] in listed + [loans[j]] <==> loans[m] in listed || loans[m] == loans[j];
      if m != j {
        assert loans[m].id != loans[j].id;
      }
    }
  }

  /** One more listed loan appends its refreshed copy to the response. */
  lemma RefreshAllStep(found: seq<Loan>, i: nat, now: int)
    requires i < |found|
    ensures RefreshAll(found[..i + 1], now) == RefreshAll(found[..i], now) + [Refreshed(found[i], now)]
  {
  }

  /** The status a loan would have if it were derived from its dates on every
      read: Devolvido once returned, else Atrasado past the due date, else
      Pendente. */
  function DerivedStatus(l: Loan, now: int): LoanStatus {
    if l.dataDevolucaoReal.Some? then Devolvido
    else if now > l.dataPrevistaDevolucao then Atrasado
    else Pendente
  }

  /** The stored status agrees with the derived one after a listing, provided
      Devolvido is stored exactly when a return date is, and an Atrasado loan
      is still past its due date (the clock has not gone back). */
  lemma RefreshAgreesWithDerivation(l: Loan, now: int)
    requires l.statusDevolucao == Devolvido <==> l.dataDevolucaoReal.Some?
    requires l.statusDevolucao == Atrasado ==> now > l.dataPrevistaDevolucao
    ensures Refreshed(l, now).statusDevolucao == DerivedStatus(l, now)
  {
  }

  /** Listing at one time and then at a later one stores the same as listing
      only at the later one. */
  lemma RefreshLater(l: Loan, t1: int, t2: int)
    requires t1 <= t2
    ensures Refreshed(Refreshed(l, t1), t2) == Refreshed(l, t2)
  {
  }

  /** A listing never returns a Pendente loan that is past its due date, and
      it returns the matching loans, in order, with only their status
      possibly changed to Atrasado. */
  lemma {:induction false} ListedLoansCurrent(loans: seq<Loan>, statusFilter: string, search: string, re: Matcher, now: int)
    ensures var found := MatchingLoans(loans, statusFilter, search, re);
      var r := RefreshAll(found, now);
      && |r| == |found|
      && (forall j :: 0 <= j < |r| ==> !IsOverdue(r[j], now))
      && (forall j :: 0 <= j < |r| ==> r[j].id == found[j].id && found[j] in loans)
      && (forall j :: 0 <= j < |r| ==> r[j].statusDevolucao != Pendente || found[j].statusDevolucao == Pendente)
  {
    var found := MatchingLoans(loans, statusFilter, search, re);
    forall j | 0 <= j < |found| ensures found[j] in loans {
      assert found[j] in found;
    }
  }

  // ---------------------------------------------------------------------
  // Notifications
  // ---------------------------------------------------------------------

  /** One unread notification per recipient, in order, with consecutive fresh
      ids from `firstId`. */
  function Notices(recipients: seq<User>, firstId: nat, message: Message, kind: NotificationKind, now: int): (r: seq<Notification>)
    ensures |r| == |recipients|
  {
    seq(|recipients|, j requires 0 <= j < |recipients| =>
      Notification(firstId + j, recipients[j].id, message, kind, false, now))
  }

  /** The admin accounts, in stored order. */
  function Admins(users: seq<User>): (r: seq<User>)
    ensures forall u :: u in r <==> u in users && u.role == AdminRole
  {
    Filter(users, (u: User) => u.role == AdminRole)
  }

  predicate Addressed(n: Notification, id: nat, userId: string) {
    n.id == id && n.userId == userId
  }

  /** `mark_notification_read`: the first notification with this id that
      belongs to this user is marked read; without one, nothing changes. */
  function MarkRead(ns: seq<Notification>, id: nat, userId: string): (r: seq<Notification>)
    ensures |r| == |ns|
    ensures forall k :: 0 <= k < |ns| ==> r[k] == ns[k] || (Addressed(ns[k], id, userId) && r[k] == ns[k].(read := true))
    ensures (forall k :: 0 <= k < |ns| ==> !Addressed(ns[k], id, userId)) ==> r == ns
    ensures var f := FindFirst(ns, (n: Notification) => Addressed(n, id, userId));
            f.Some? ==> r[f.value] == ns[f.value].(read := true)
    ensures forall k :: 0 <= k < |ns| && r[k] != ns[k] ==>
              FindFirst(ns, (n: Notification) => Addressed(n, id, userId)) == Some(k)
  {
    match FindFirst(ns, (n: Notification) => Addressed(n, id, userId))
    case None => ns
    case Some(k) => ns[k := ns[k].(read := true)]
  }

  /** Two sequences that agree on `p` everywhere have the same first match. */
  lemma {:induction false} FindFirstRespects<T>(s: seq<T>, t: seq<T>, p: T -> bool)
    requires |s| == |t|
    requires forall k :: 0 <= k < |s| ==> p(s[k]) == p(t[k])
    ensures FindFirst(s, p) == FindFirst(t, p)
  {
    if |s| > 0 && !p(s[0]) {
      FindFirstRespects(s[1..], t[1..], p);
    }
  }

  /** Marking a notification read twice is the same as marking it once. */
  lemma {:induction false} MarkReadIdempotent(ns: seq<Notification>, id: nat, userId: string)
    ensures MarkRead(MarkRead(ns, id, userId), id, userId) == MarkRead(ns, id, userId)
  {
    var once := MarkRead(ns, id, userId);
    FindFirstRespects(ns, once, (n: Notification) => Addressed(n, id, userId));
  }

  predicate NewestFirst(ns: seq<Notification>) {
    forall i, j :: 0 <= i < j < |ns| ==> ns[i].createdAt >= ns[j].createdAt
  }

  function InsertNewestFirst(n: Notification, ns: seq<Notification>): (r: seq<Notification>)
    requires NewestFirst(ns)
    ensures NewestFirst(r)
    ensures forall x :: x in r <==> x == n || x in ns
    ensures multiset(r) == multiset(ns) + multiset{n}
    decreases |ns|
  {
    if |ns| == 0 || n.createdAt >= ns[0].createdAt then
      NewestFirstCons(n, ns);
      [n] + ns
    else
      var rest := InsertNewestFirst(n, ns[1..]);
      assert ns == [ns[0]] + ns[1..];
      NewestFirstCons(ns[0], rest);
      [ns[0]] + rest
  }

  /** Putting in front an element no older than the first keeps the order. */
  lemma NewestFirstCons(x: Notification, ns: seq<Notification>)
    requires NewestFirst(ns)
    requires |ns| > 0 ==> x.createdAt >= ns[0].createdAt
    ensures NewestFirst([x] + ns)
  {
    var r := [x] + ns;
    forall i, j | 0 <= i < j < |r| ensures r[i].createdAt >= r[j].createdAt {
      if i == 0 && j > 1 {
        assert ns[0].createdAt >= ns[j - 1].createdAt;
      }
    }
  }

  /** Newest first by creation time, as `sort("created_at", -1)`; the order of
      equal times is not fixed by the database and is not promised here. */
  function SortNewestFirst(ns: seq<Notification>): (r: seq<Notification>)
    ensures NewestFirst(r)
    ensures multiset(r) == multiset(ns)
    decreases |ns|
  {
    if |ns| == 0 then []
    else
      assert ns == [ns[0]] + ns[1..];
      InsertNewestFirst(ns[0], SortNewestFirst(ns[1..]))
  }

  /** `get_notifications`: the user's own notifications, newest first. */
  function NotificationsOf(ns: seq<Notification>, userId: string): (r: seq<Notification>)
    ensures NewestFirst(r)
    ensures forall n :: n in r <==> n in ns && n.userId == userId
    ensures forall n :: multiset(r)[n] == if n.userId == userId then multiset(ns)[n] else 0
  {
    var mine := Filter(ns, (n: Notification) => n.userId == userId);
    FilterCounts(ns, (n: Notification) => n.userId == userId);
    var r := SortNewestFirst(mine);
    assert forall n :: n in r <==> n in multiset(mine);
    r
  }

  // ---------------------------------------------------------------------
  // Read-only handlers
  // ---------------------------------------------------------------------

  /** The filters of `get_equipments`: exact type, department and status, and
      a pattern matched against tag, serial number, brand or model. */
  predicate EquipmentMatches(e: Equipment, q: EquipmentQuery, re: Matcher) {
    && (q.tipo == "" || e.tipoEquipamento == q.tipo)
    && (q.departamento == "" || e.departamentoAtual == q.departamento)
    && (q.status == "" || e.status == q.status)
    && (q.search == "" || re(q.search, e.numeroPatrimonio) || re(q.search, e.numeroSerie)
                       || re(q.search, e.marca) || re(q.search, e.modelo))
  }

  function ListEquipments(eqs: seq<Equipment>, q: EquipmentQuery, re: Matcher): (r: seq<Equipment>)
    ensures forall e :: e in r <==> e in eqs && EquipmentMatches(e, q, re)
    ensures q == EquipmentQuery("", "", "", "") ==> r == eqs
  {
    var r := Filter(eqs, (e: Equipment) => EquipmentMatches(e, q, re));
    if q == EquipmentQuery("", "", "", "") then AllMatch(eqs, (e: Equipment) => EquipmentMatches(e, q, re)); r
    else r
  }

  /** Filtering by a predicate every element satisfies changes nothing. */
  lemma {:induction false} AllMatch<T(!new)>(s: seq<T>, p: T -> bool)
    requires forall x <- s :: p(x)
    ensures Filter(s, p) == s
    decreases |s|
  {
    if |s| > 0 {
      AllMatch(s[1..], p);
    }
  }

  /** `count_documents` and `find` by equipment status. */
  function WithStatus(eqs: seq<Equipment>, status: string): (r: seq<Equipment>)
    ensures forall e :: e in r <==> e in eqs && e.status == status
    ensures |r| == |set k | 0 <= k < |eqs| && eqs[k].status == status|
  {
    FilterSize(eqs, (e: Equipment) => e.status == status);
    assert Positions(eqs, (e: Equipment) => e.status == status)
        == set k | 0 <= k < |eqs| && eqs[k].status == status;
    Filter(eqs, (e: Equipment) => e.status == status)
  }

  /** `get_available_equipments_public`: the equipment in status Disponível. */
  function AvailableEquipments(eqs: seq<Equipment>): (r: seq<Equipment>)
    ensures forall e :: e in r <==> e in eqs && e.status == Disponivel
  {
    WithStatus(eqs, Disponivel)
  }

  /** `get_equipment_history`: the entries recorded for one equipment id, in
      stored order. */
  function HistoryOf(history: seq<HistoryEntry>, equipmentId: nat): (r: seq<HistoryEntry>)
    ensures forall h :: h in r <==> h in history && h.equipmentId == equipmentId
    ensures |r| <= |history|
  {
    Filter(history, (h: HistoryEntry) => h.equipmentId == equipmentId)
  }

  /** Filtering an extended sequence extends the filtered one. */
  lemma {:induction false} FilterAppend<T(!new)>(s: seq<T>, x: T, p: T -> bool)
    ensures Filter(s + [x], p) == Filter(s, p) + (if p(x) then [x] else [])
    decreases |s|
  {
    if |s| == 0 {
      assert s + [x] == [x];
    } else {
      assert (s + [x])[1..] == s[1..] + [x];
      FilterAppend(s[1..], x, p);
    }
  }

  /** Writing an entry about another equipment leaves one equipment's history
      as it was; an entry about it is appended to its history. */
  lemma HistoryOfAppend(history: seq<HistoryEntry>, h: HistoryEntry, equipmentId: nat)
    ensures HistoryOf(history + [h], equipmentId)
         == HistoryOf(history, equipmentId) + (if h.equipmentId == equipmentId then [h] else [])
  {
    FilterAppend(history, h, (e: HistoryEntry) => e.equipmentId == equipmentId);
  }

  /** `count_documents` by loan status. */
  function WithLoanStatus(loans: seq<Loan>, status: LoanStatus): (r: seq<Loan>)
    ensures forall l :: l in r <==> l in loans && l.statusDevolucao == status
    ensures |r| == |set k | 0 <= k < |loans| && loans[k].statusDevolucao == status|
  {
    FilterSize(loans, (l: Loan) => l.statusDevolucao == status);
    assert Positions(loans, (l: Loan) => l.statusDevolucao == status)
        == set k | 0 <= k < |loans| && loans[k].statusDevolucao == status;
    Filter(loans, (l: Loan) => l.statusDevolucao == status)
  }

  /** Equipment counted under three distinct statuses are never counted twice. */
  lemma {:induction false} StatusCountsBounded(eqs: seq<Equipment>, a: string, b: string, c: string)
    requires a != b && b != c && a != c
    ensures |WithStatus(eqs, a)| + |WithStatus(eqs, b)| + |WithStatus(eqs, c)| <= |eqs|
    decreases |eqs|
  {
    if |eqs| > 0 {
      StatusCountsBounded(eqs[1..], a, b, c);
    }
  }

  /** Active and overdue loans are disjoint. */
  lemma {:induction false} LoanCountsBounded(loans: seq<Loan>)
    ensures |WithLoanStatus(loans, Pendente)| + |WithLoanStatus(loans, Atrasado)| <= |loans|
    decreases |loans|
  {
    if |loans| > 0 {
      LoanCountsBounded(loans[1..]);
    }
  }

  /** `get_dashboard_stats`, counted over the stored statuses (a loan past
      its due date that no listing has rewritten yet counts as active). */
  function Stats(eqs: seq<Equipment>, loans: seq<Loan>): (r: DashboardStats)
    ensures r.totalEquipments == |eqs|
    ensures r.available == |set k | 0 <= k < |eqs| && eqs[k].status == Disponivel|
    ensures r.loaned == |set k | 0 <= k < |eqs| && eqs[k].status == Emprestado|
    ensures r.maintenance == |set k | 0 <= k < |eqs| && eqs[k].status == Manutencao|
    ensures r.activeLoans == |set k | 0 <= k < |loans| && loans[k].statusDevolucao == Pendente|
    ensures r.overdueLoans == |set k | 0 <= k < |loans| && loans[k].statusDevolucao == Atrasado|
    ensures r.available + r.loaned + r.maintenance <= r.totalEquipments
    ensures r.activeLoans + r.overdueLoans <= |loans|
  {
    assert Disponivel[0] == 'D' && Emprestado[0] == 'E' && Manutencao[0] == 'M';
    StatusCountsBounded(eqs, Disponivel, Emprestado, Manutencao);
    LoanCountsBounded(loans);
    DashboardStats(|eqs|, |WithStatus(eqs, Disponivel)|, |WithStatus(eqs, Emprestado)|,
                   |WithStatus(eqs, Manutencao)|, |WithLoanStatus(loans, Pendente)|,
                   |WithLoanStatus(loans, Atrasado)|)
  }

  // ---------------------------------------------------------------------
  // Spreadsheet import
  // ---------------------------------------------------------------------

  predicate EndsWith(s: string, suffix: string) {
    |suffix| <= |s| && s[|s| - |suffix|..] == suffix
  }

  /** The file-name test of `import_equipments`: a case-sensitive check for
      the `.xlsx` or `.xls` extension. */
  predicate IsSpreadsheetName(filename: string) {
    EndsWith(filename, ".xlsx") || EndsWith(filename, ".xls")
  }

  /** Any stem with a spreadsheet extension passes the name test; the same
      stem with a PDF, CSV or upper-case extension does not. */
  lemma SpreadsheetNames(stem: string)
    ensures IsSpreadsheetName(stem + ".xlsx") && IsSpreadsheetName(stem + ".xls")
    ensures !IsSpreadsheetName(stem + ".pdf") && !IsSpreadsheetName(stem + ".csv")
    ensures !IsSpreadsheetName(stem + ".XLSX")
  {
    assert (stem + ".xlsx")[|stem|..] == ".xlsx";
    assert (stem + ".xls")[|stem|..] == ".xls";
    LastOfSuffix(stem + ".pdf", ".xlsx");
    LastOfSuffix(stem + ".pdf", ".xls");
    LastOfSuffix(stem + ".csv", ".xlsx");
    LastOfSuffix(stem + ".csv", ".xls");
    LastOfSuffix(stem + ".XLSX", ".xlsx");
    LastOfSuffix(stem + ".XLSX", ".xls");
  }

  /** A text ending with a suffix ends with the suffix's last character. */
  lemma LastOfSuffix(s: string, suffix: string)
    requires |suffix| > 0
    ensures EndsWith(s, suffix) ==> s[|s| - 1] == suffix[|suffix| - 1]
  {
    if EndsWith(s, suffix) {
      assert s[|s| - |suffix|..][|suffix| - 1] == s[|s| - 1];
    }
  }

  /** The required columns the file lacks, in the order they are required. */
  function MissingColumnsOf(columns: set<string>): (r: seq<string>)
    ensures forall c :: c in r <==> c in RequiredColumns && c !in columns
  {
    Filter(RequiredColumns, (c: string) => c !in columns)
  }

  /** A header holding every required column passes the column check. */
  lemma NoMissingColumns(columns: set<string>)
    requires forall c <- RequiredColumns :: c in columns
    ensures MissingColumnsOf(columns) == []
  {
    FilterNone(RequiredColumns, (c: string) => c !in columns);
  }

  /** Row `i` is inserted: no equipment had its tag before the import and no
      earlier row carries it (an earlier row with the tag was either inserted
      or was itself a duplicate). */
  predicate RowAccepted(eqs: seq<Equipment>, rows: seq<ImportRow>, i: nat)
    requires i < |rows|
  {
    && !HasTag(eqs, rows[i].numeroPatrimonio)
    && forall j :: 0 <= j < i ==> rows[j].numeroPatrimonio != rows[i].numeroPatrimonio
  }

  /** The accepted rows, in input order. */
  function AcceptedRows(eqs: seq<Equipment>, rows: seq<ImportRow>): (r: seq<ImportRow>)
    ensures |r| <= |rows|
    decreases |rows|
  {
    if |rows| == 0 then []
    else
      var i := |rows| - 1;
      AcceptedRows(eqs, rows[..i]) + (if RowAccepted(eqs, rows, i) then [rows[i]] else [])
  }

  /** One error per rejected row, in input order; lines count from the
      spreadsheet's header line 1, so row index `i` is line `i + 2`. */
  function RejectedRows(eqs: seq<Equipment>, rows: seq<ImportRow>): (r: seq<ImportError>)
    ensures |r| <= |rows|
    decreases |rows|
  {
    if |rows| == 0 then []
    else
      var i := |rows| - 1;
      RejectedRows(eqs, rows[..i])
        + (if RowAccepted(eqs, rows, i) then [] else [TagAlreadyExists(i + 2, rows[i].numeroPatrimonio)])
  }

  /** Each reported error names a spreadsheet line of the input, from 2 up,
      and the tag of the row on that line. */
  lemma {:induction false} RejectedLines(eqs: seq<Equipment>, rows: seq<ImportRow>)
    ensures forall e <- RejectedRows(eqs, rows) :: 2 <= e.line < |rows| + 2 && e.tag == rows[e.line - 2].numeroPatrimonio
    decreases |rows|
  {
    if |rows| > 0 {
      var i := |rows| - 1;
      RejectedLines(eqs, rows[..i]);
    }
  }

  /** Every row is either inserted or reported. */
  lemma {:induction false} ImportCountsAddUp(eqs: seq<Equipment>, rows: seq<ImportRow>)
    ensures |AcceptedRows(eqs, rows)| + |RejectedRows(eqs, rows)| == |rows|
    decreases |rows|
  {
    if |rows| > 0 {
      ImportCountsAddUp(eqs, rows[..|rows| - 1]);
    }
  }

  /** Whether a row is accepted depends only on the rows before it. */
  lemma RowAcceptedPrefix(eqs: seq<Equipment>, rows: seq<ImportRow>, i: nat, n: nat)
    requires i < n <= |rows|
    ensures RowAccepted(eqs, rows[..n], i) == RowAccepted(eqs, rows, i)
  {
    assert forall j :: 0 <= j <= i ==> rows[..n][j] == rows[j];
  }

  /** How one more row extends the accepted and rejected lists. */
  lemma ImportStep(eqs: seq<Equipment>, rows: seq<ImportRow>, i: nat)
    requires i < |rows|
    ensures RowAccepted(eqs, rows, i) ==>
              && AcceptedRows(eqs, rows[..i + 1]) == AcceptedRows(eqs, rows[..i]) + [rows[i]]
              && RejectedRows(eqs, rows[..i + 1]) == RejectedRows(eqs, rows[..i])
    ensures !RowAccepted(eqs, rows, i) ==>
              && AcceptedRows(eqs, rows[..i + 1]) == AcceptedRows(eqs, rows[..i])
              && RejectedRows(eqs, rows[..i + 1])
                 == RejectedRows(eqs, rows[..i]) + [TagAlreadyExists(i + 2, rows[i].numeroPatrimonio)]
  {
    assert rows[..i + 1][..i] == rows[..i];
    RowAcceptedPrefix(eqs, rows, i, i + 1);
    assert AcceptedRows(eqs, rows[..i]) + [] == AcceptedRows(eqs, rows[..i]);
    assert RejectedRows(eqs, rows[..i]) + [] == RejectedRows(eqs, rows[..i]);
  }

  /** The accepted rows carry distinct tags that were not in the registry, and
      each is one of the input rows. */
  lemma {:induction false} AcceptedRowsFresh(eqs: seq<Equipment>, rows: seq<ImportRow>)
    ensures forall a :: 0 <= a < |AcceptedRows(eqs, rows)| ==>
              && !HasTag(eqs, AcceptedRows(eqs, rows)[a].numeroPatrimonio)
              && AcceptedRows(eqs, rows)[a] in rows
    ensures forall a, b :: 0 <= a < b < |AcceptedRows(eqs, rows)| ==>
              AcceptedRows(eqs, rows)[a].numeroPatrimonio != AcceptedRows(eqs, rows)[b].numeroPatrimonio
    decreases |rows|
  {
    if |rows| > 0 {
      var i := |rows| - 1;
      var prefix := rows[..i];
      assert rows == prefix + [rows[i]];
      AcceptedRowsFresh(eqs, prefix);
      var before := AcceptedRows(eqs, prefix);
      assert forall a :: 0 <= a < |before| ==> before[a] in prefix;
      if RowAccepted(eqs, rows, i) {
        forall a | 0 <= a < |before|
          ensures before[a].numeroPatrimonio != rows[i].numeroPatrimonio
        {
          assert before[a] in prefix;
          var j :| 0 <= j < |prefix| && prefix[j] == before[a];
          assert rows[j] == before[a];
        }
      }
    }
  }

  /** The records the import inserts: one per accepted row, each taking two
      fresh ids (the equipment's and its history entry's). */
  function Inserted(accepted: seq<ImportRow>, firstId: nat, now: int): (r: seq<Equipment>)
    ensures |r| == |accepted|
  {
    seq(|accepted|, j requires 0 <= j < |accepted| => FromRow(accepted[j], firstId + 2 * j, now))
  }

  /** The `created` entries the import writes, one per inserted record. */
  function ImportLogged(accepted: seq<ImportRow>, firstId: nat, user: string, now: int): (r: seq<HistoryEntry>)
    ensures |r| == |accepted|
  {
    seq(|accepted|, j requires 0 <= j < |accepted| =>
      HistoryEntry(firstId + 2 * j + 1, firstId + 2 * j, Created, Imported(accepted[j].numeroPatrimonio), user, now))
  }

  /** One more accepted row adds one record and one entry at the end. */
  lemma InsertedAppend(accepted: seq<ImportRow>, row: ImportRow, firstId: nat, user: string, now: int)
    ensures Inserted(accepted + [row], firstId, now)
         == Inserted(accepted, firstId, now) + [FromRow(row, firstId + 2 * |accepted|, now)]
    ensures ImportLogged(accepted + [row], firstId, user, now)
         == ImportLogged(accepted, firstId, user, now)
            + [HistoryEntry(firstId + 2 * |accepted| + 1, firstId + 2 * |accepted|, Created,
                            Imported(row.numeroPatrimonio), user, now)]
  {
    assert (accepted + [row])[..|accepted|] == accepted;
  }

  /** Some row of `rows` carries the tag. */
  predicate RowsCarry(rows: seq<ImportRow>, tag: string) {
    exists j :: 0 <= j < |rows| && rows[j].numeroPatrimonio == tag
  }

  /** Every tag an accepted row carries was absent from the registry and is
      carried by some input row. */
  lemma {:induction false} AcceptedTagsSound(eqs: seq<Equipment>, rows: seq<ImportRow>, t: string)
    requires RowsCarry(AcceptedRows(eqs, rows), t)
    ensures !HasTag(eqs, t) && RowsCarry(rows, t)
    decreases |rows|
  {
    var i := |rows| - 1;
    var prefix := rows[..i];
    var acc := AcceptedRows(eqs, prefix);
    var all := AcceptedRows(eqs, rows);
    var a :| 0 <= a < |all| && all[a].numeroPatrimonio == t;
    if a < |acc| {
      assert acc[a] == all[a];
      AcceptedTagsSound(eqs, prefix, t);
      var j :| 0 <= j < |prefix| && prefix[j].numeroPatrimonio == t;
      assert rows[j] == prefix[j];
    } else {
      assert all[a] == rows[i];
    }
  }

  /** Every input row's tag that the registry lacked is carried by some
      accepted row: the row itself, or an earlier accepted row with its tag. */
  lemma {:induction false} AcceptedTagsComplete(eqs: seq<Equipment>, rows: seq<ImportRow>, t: string)
    requires !HasTag(eqs, t) && RowsCarry(rows, t)
    ensures RowsCarry(AcceptedRows(eqs, rows), t)
    decreases |rows|
  {
    var i := |rows| - 1;
    var prefix := rows[..i];
    var acc := AcceptedRows(eqs, prefix);
    var all := AcceptedRows(eqs, rows);
    assert all[..|acc|] == acc;
    var j :| 0 <= j < |rows| && rows[j].numeroPatrimonio == t;
    if j < i {
      assert prefix[j] == rows[j];
      AcceptedTagsComplete(eqs, prefix, t);
      var a :| 0 <= a < |acc| && acc[a].numeroPatrimonio == t;
      assert all[a] == acc[a];
    } else if RowAccepted(eqs, rows, i) {
      assert all[|acc|] == rows[i];
    } else {
      var j' :| 0 <= j' < i && rows[j'].numeroPatrimonio == rows[i].numeroPatrimonio;
      assert prefix[j'] == rows[j'];
      AcceptedTagsComplete(eqs, prefix, t);
      var a :| 0 <= a < |acc| && acc[a].numeroPatrimonio == t;
      assert all[a] == acc[a];
    }
  }

  /** The accepted rows carry exactly the listed tags the registry lacks. */
  lemma AcceptedTags(eqs: seq<Equipment>, rows: seq<ImportRow>, t: string)
    ensures RowsCarry(AcceptedRows(eqs, rows), t) <==> !HasTag(eqs, t) && RowsCarry(rows, t)
  {
    if RowsCarry(AcceptedRows(eqs, rows), t) {
      AcceptedTagsSound(eqs, rows, t);
    }
    if !HasTag(eqs, t) && RowsCarry(rows, t) {
      AcceptedTagsComplete(eqs, rows, t);
    }
  }

  /** After importing `rows`, the registry carries exactly the tags it carried
      before and the tags of the rows. */
  lemma InsertedTags(eqs: seq<Equipment>, rows: seq<ImportRow>, firstId: nat, now: int, t: string)
    ensures HasTag(eqs + Inserted(AcceptedRows(eqs, rows), firstId, now), t) <==> HasTag(eqs, t) || RowsCarry(rows, t)
  {
    var acc := AcceptedRows(eqs, rows);
    var ins := Inserted(acc, firstId, now);
    var all := eqs + ins;
    AcceptedTags(eqs, rows, t);
    if HasTag(all, t) && !HasTag(eqs, t) {
      var k :| 0 <= k < |all| && all[k].numeroPatrimonio == t;
      assert acc[k - |eqs|].numeroPatrimonio == t;
    }
    if HasTag(eqs, t) {
      var k :| 0 <= k < |eqs| && eqs[k].numeroPatrimonio == t;
      assert all[k] == eqs[k];
    } else if RowsCarry(rows, t) {
      var a :| 0 <= a < |acc| && acc[a].numeroPatrimonio == t;
      assert all[|eqs| + a] == ins[a];
    }
  }

  /** The import tests each row against the live registry, which by then
      holds the rows accepted before it. That test agrees with `RowAccepted`,
      which looks only at the registry before the import and the earlier rows. */
  lemma RowAcceptedLive(eqs: seq<Equipment>, rows: seq<ImportRow>, i: nat, firstId: nat, now: int)
    requires i < |rows|
    ensures RowAccepted(eqs, rows, i)
        <==> !HasTag(eqs + Inserted(AcceptedRows(eqs, rows[..i]), firstId, now), rows[i].numeroPatrimonio)
  {
    InsertedTags(eqs, rows[..i], firstId, now, rows[i].numeroPatrimonio);
    assert RowsCarry(rows[..i], rows[i].numeroPatrimonio) <==>
           exists j :: 0 <= j < i && rows[j].numeroPatrimonio == rows[i].numeroPatrimonio by {
      assert forall j :: 0 <= j < i ==> rows[..i][j] == rows[j];
    }
  }

  /** The imported records' ids are below `next` and distinct from each other
      and from the registry's. */
  lemma InsertedIdsFresh(eqs: seq<Equipment>, accepted: seq<ImportRow>, firstId: nat, now: int, next: nat)
    requires EquipmentIdsFresh(eqs, firstId)
    requires next >= firstId && (|accepted| > 0 ==> next > firstId + 2 * (|accepted| - 1))
    ensures EquipmentIdsFresh(eqs + Inserted(accepted, firstId, now), next)
  {
    var all := eqs + Inserted(accepted, firstId, now);
    assert forall k :: |eqs| <= k < |all| ==> all[k].id == firstId + 2 * (k - |eqs|);
  }

  /** Importing keeps asset tags unique. */
  lemma ImportKeepsTagsUnique(eqs: seq<Equipment>, rows: seq<ImportRow>, firstId: nat, now: int)
    requires TagsUnique(eqs)
    ensures TagsUnique(eqs + Inserted(AcceptedRows(eqs, rows), firstId, now))
  {
    var acc := AcceptedRows(eqs, rows);
    AcceptedRowsFresh(eqs, rows);
    var all := eqs + Inserted(acc, firstId, now);
    forall i, j | 0 <= i < j < |all|
      ensures all[i].numeroPatrimonio != all[j].numeroPatrimonio
    {
      if j >= |eqs| && i < |eqs| {
        assert all[j].numeroPatrimonio == acc[j - |eqs|].numeroPatrimonio;
        assert eqs[i].numeroPatrimonio != all[j].numeroPatrimonio;
      }
    }
  }

  /** The report of an import: success and error counts, and the first ten
      errors. */
  function ReportOf(eqs: seq<Equipment>, rows: seq<ImportRow>): (r: ImportReport)
    ensures r.successCount + r.errorCount == |rows|
    ensures r.successCount == |AcceptedRows(eqs, rows)|
    ensures |r.errors| == if r.errorCount < MaxReportedErrors then r.errorCount else MaxReportedErrors
    ensures r.errors <= RejectedRows(eqs, rows)
  {
    ImportCountsAddUp(eqs, rows);
    var errors := RejectedRows(eqs, rows);
    ImportReport(|AcceptedRows(eqs, rows)|, |errors|,
                 if |errors| <= MaxReportedErrors then errors else errors[..MaxReportedErrors])
  }
}
