/** The `/api/links` router: create, list, look up (stats or redirect mode)
    and delete, each as a transition of the table. */
module Links {
  import opened Wrappers
  import opened Schema
  import opened Codes
  import opened Http

  /** The generator loop stops after this many colliding candidates. */
  const MaxAttempts := 10

  const InvalidUrlMessage := "Invalid URL format"
  const InvalidCodeMessage := "Code must be 6-8 characters long and contain only letters and numbers"
  const CodeExistsMessage := "Code already exists"
  const ExhaustedMessage := "Failed to generate unique code"
  const DeletedMessage := "Link deleted successfully"

  /** JavaScript truthiness of an optional string field of the request. */
  predicate Truthy(field: Option<string>) {
    field.Some? && field.value != ""
  }

  /** `url && isValidUrl(url)`; `urlParses` stands for `new URL(url)` not
      throwing. */
  predicate UrlAccepted(url: Option<string>, urlParses: string -> bool) {
    Truthy(url) && urlParses(url.value)
  }

  /** The random source: at least one six-position draw per possible attempt. */
  predicate EnoughCandidates(candidates: seq<seq<AlphabetIndex>>) {
    |candidates| >= MaxAttempts &&
    forall j :: 0 <= j < |candidates| ==> |candidates[j]| == DefaultLength
  }

  /** Some attempt of the generator loop finds a free code. */
  predicate SomeCandidateFree(store: Store, candidates: seq<seq<AlphabetIndex>>)
    requires EnoughCandidates(candidates)
  {
    exists j :: 0 <= j < MaxAttempts && GenerateCode(candidates[j]) !in store
  }

  /** The allocator has a code to hand out: the custom code is valid and
      free, or (without one) some generated candidate is free. */
  predicate CodeAvailable(store: Store, code: Option<string>, candidates: seq<seq<AlphabetIndex>>)
    requires EnoughCandidates(candidates)
  {
    if Truthy(code) then IsValidCode(code.value) && code.value !in store
    else SomeCandidateFree(store, candidates)
  }

  /** The allocator's verdict: a code to insert, or the error reply. */
  datatype Allocation = Allocated(code: string) | Refused(status: nat, message: string)

  /** The code-choosing half of the create handler. A truthy custom code must
      match the format (else 400) and be free (else 409). Otherwise up to ten
      generated candidates are tried in turn; the first free one is taken,
      and if all collide the answer is 500. */
  function AllocateCode(store: Store, code: Option<string>,
                        candidates: seq<seq<AlphabetIndex>>): (a: Allocation)
    requires EnoughCandidates(candidates)
    ensures a.Allocated? <==> CodeAvailable(store, code, candidates)
    ensures a.Allocated? ==> a.code !in store && IsValidCode(a.code)
    ensures Truthy(code) ==>
      && (a.Allocated? ==> a.code == code.value)
      && (!IsValidCode(code.value) ==> a == Refused(400, InvalidCodeMessage))
      && (IsValidCode(code.value) && code.value in store ==> a == Refused(409, CodeExistsMessage))
    ensures !Truthy(code) ==>
      && (a.Allocated? ==> |a.code| == DefaultLength)
      && (a.Allocated? ==> exists j :: 0 <= j < MaxAttempts && a.code == GenerateCode(candidates[j])
                              && forall i :: 0 <= i < j ==> GenerateCode(candidates[i]) in store)
      && (a.Refused? ==> a == Refused(500, ExhaustedMessage))
  {
    if Truthy(code) then
      if !IsValidCode(code.value) then Refused(400, InvalidCodeMessage)
      else if code.value in store then Refused(409, CodeExistsMessage)
      else Allocated(code.value)
    else
      match FirstFreeAttempt(store, candidates, 0, MaxAttempts)
      case None => Refused(500, ExhaustedMessage)
      case Some(j) =>
        GeneratedCodeIsValid(candidates[j]);
        Allocated(GenerateCode(candidates[j]))
  }

  /** POST /api/links with body `{url, code}` at time `now`. Every failure
      leaves the table as it was; success adds exactly one fresh row under a
      valid code that was free, and answers 201 with that row. Once a code is
      allocated, the insert fails only on a url holding U+0000, which the
      handler's catch answers with 500. */
  function CreateLink(store: Store, url: Option<string>, code: Option<string>,
                      candidates: seq<seq<AlphabetIndex>>, now: Time,
                      urlParses: string -> bool): (r: Reply)
    requires EnoughCandidates(candidates)
    ensures r.status in {201, 400, 409, 500}
    ensures r.status != 201 ==> r.store == store && r.body.Error?
    ensures !UrlAccepted(url, urlParses) ==> r == Reply(400, Error(InvalidUrlMessage), store)
    ensures r.status == 400 <==>
      !UrlAccepted(url, urlParses) || (Truthy(code) && !IsValidCode(code.value))
    ensures r.status == 409 <==>
      UrlAccepted(url, urlParses) && Truthy(code) && IsValidCode(code.value) && code.value in store
    ensures r.body == Error(ExhaustedMessage) <==>
      UrlAccepted(url, urlParses) && !Truthy(code) && !SomeCandidateFree(store, candidates)
    ensures r.body == Error(InternalErrorMessage) <==>
      UrlAccepted(url, urlParses) && CodeAvailable(store, code, candidates) && !NulFree(url.value)
    ensures r.status == 500 ==> r.body in {Error(ExhaustedMessage), Error(InternalErrorMessage)}
    ensures r.status == 201 <==>
      UrlAccepted(url, urlParses) && CodeAvailable(store, code, candidates) && NulFree(url.value)
    ensures r.status == 201 ==>
      && r.body.Row?
      && r.body.link.code !in store
      && IsValidCode(r.body.link.code)
      && r.body.link == FreshRow(r.body.link.code, url.value, now)
      && r.store == store[r.body.link.code := r.body.link]
    ensures r.status == 201 && Truthy(code) ==> r.body.link.code == code.value
    ensures r.status == 201 ==> AllocateCode(store, code, candidates) == Allocated(r.body.link.code)
    ensures UrlAccepted(url, urlParses) && r.status in {400, 409} ==>
      AllocateCode(store, code, candidates) == Refused(r.status, r.body.message)
    ensures WellFormed(store) ==> WellFormed(r.store)
  {
    if !UrlAccepted(url, urlParses) then Reply(400, Error(InvalidUrlMessage), store)
    else
      match AllocateCode(store, code, candidates)
      case Refused(status, message) => Reply(status, Error(message), store)
      case Allocated(c) =>
        ValidCodeIsStoredAsIs(c);
        match Insert(store, c, url.value, now)
        case None => Reply(500, Error(InternalErrorMessage), store)
        case Some(ins) => Reply(201, Row(ins.row), ins.store)
  }

  /** `?redirect=true` selects redirect mode; any other value, or none, is
      stats mode. */
  predicate RedirectMode(redirect: Option<string>) {
    redirect == Some("true")
  }

  /** GET /api/links/:code. A code holding U+0000 makes the lookup query fail
      (500). An unknown code is 404. Stats mode answers the row and changes
      nothing. Redirect mode also counts a click at `now`, but the row it
      answers is the one read before the update. */
  function GetLink(store: Store, code: string, redirect: Option<string>, now: Time): (r: Reply)
    ensures !NulFree(code) ==> r == Reply(500, Error(InternalErrorMessage), store)
    ensures NulFree(code) && code !in store ==> r == Reply(404, Error(LinkNotFoundMessage), store)
    ensures NulFree(code) && code in store && !RedirectMode(redirect) ==> r == Reply(200, Row(store[code]), store)
    ensures NulFree(code) && code in store && RedirectMode(redirect) && store[code].total_clicks < MaxInt32 ==>
      && r.status == 200
      && r.body == Row(store[code])
      && r.store == store[code := Clicked(store[code], now)]
    ensures code in store && RedirectMode(redirect) && store[code].total_clicks >= MaxInt32 ==>
      r == Reply(500, Error(InternalErrorMessage), store)
    ensures r.store.Keys == store.Keys
    ensures forall k :: k in store && k != code ==> r.store[k] == store[k]
    ensures WellFormed(store) ==> WellFormed(r.store)
  {
    if !NulFree(code) then Reply(500, Error(InternalErrorMessage), store)
    else if code !in store then Reply(404, Error(LinkNotFoundMessage), store)
    else if !RedirectMode(redirect) then Reply(200, Row(store[code]), store)
    else
      match RecordClick(store, code, now)
      case None => Reply(500, Error(InternalErrorMessage), store)
      case Some(updated) => Reply(200, Row(store[code]), updated)
  }

  /** DELETE /api/links/:code: removes exactly that row, or answers 404 and
      changes nothing when there is none. A code holding U+0000 makes the
      query fail (500). */
  function DeleteLink(store: Store, code: string): (r: Reply)
    ensures !NulFree(code) ==> r == Reply(500, Error(InternalErrorMessage), store)
    ensures NulFree(code) && code in store ==> r.status == 200 && r.body == Message(DeletedMessage)
    ensures NulFree(code) && code in store ==> r.store.Keys == store.Keys - {code} && |r.store| == |store| - 1
    ensures forall k :: k in r.store ==> k in store && r.store[k] == store[k]
    ensures NulFree(code) && code !in store ==> r == Reply(404, Error(LinkNotFoundMessage), store)
    ensures WellFormed(store) ==> WellFormed(r.store)
  {
    if !NulFree(code) then Reply(500, Error(InternalErrorMessage), store)
    else if code !in store then Reply(404, Error(LinkNotFoundMessage), store)
    else
      assert (store - {code}).Keys == store.Keys - {code};
      Reply(200, Message(DeletedMessage), store - {code})
  }

  /** `ORDER BY created_at DESC` */
  predicate NewestFirst(rows: seq<Link>) {
    forall i, j :: 0 <= i < j < |rows| ==> rows[i].created_at >= rows[j].created_at
  }

  /** A finite non-empty set of codes has a newest row. */
  lemma {:induction false} NewestExists(store: Store, pending: set<string>)
    requires pending != {} && pending <= store.Keys
    ensures exists k :: k in pending && forall j :: j in pending ==> store[j].created_at <= store[k].created_at
    decreases |pending|
  {
    var x :| x in pending;
    if pending != {x} {
      var rest := pending - {x};
      NewestExists(store, rest);
      var k :| k in rest && forall j :: j in rest ==> store[j].created_at <= store[k].created_at;
      if store[x].created_at <= store[k].created_at {
        assert k in pending && forall j :: j in pending ==> store[j].created_at <= store[k].created_at;
      } else {
        assert x in pending && forall j :: j in pending ==> store[j].created_at <= store[x].created_at;
      }
    } else {
      assert forall j :: j in pending ==> store[j].created_at <= store[x].created_at;
    }
  }

  /** Each listed row is the table's row for its code. */
  predicate RowsOfStore(store: Store, rows: seq<Link>) {
    forall i :: 0 <= i < |rows| ==> rows[i].code in store && store[rows[i].code] == rows[i]
  }

  /** No code is listed twice. */
  predicate DistinctCodes(rows: seq<Link>) {
    forall i, j :: 0 <= i < j < |rows| ==> rows[i].code != rows[j].code
  }

  /** Every code of the table is either listed or still pending. */
  predicate Covers(store: Store, rows: seq<Link>, pending: set<string>) {
    forall k :: k in store ==> k in pending || store[k] in rows
  }

  /** No listed row is older than a pending one. */
  predicate NotOlderThanPending(store: Store, rows: seq<Link>, pending: set<string>)
    requires pending <= store.Keys
  {
    forall i, k :: 0 <= i < |rows| && k in pending ==> rows[i].created_at >= store[k].created_at
  }

  /** The listing loop's progress: `rows` holds, newest first and once each,
      the rows of every code of `store` outside `pending`, and none of them
      is older than a row still pending. */
  predicate ListedSoFar(store: Store, rows: seq<Link>, pending: set<string>) {
    && pending <= store.Keys
    && RowsOfStore(store, rows)
    && (forall i :: 0 <= i < |rows| ==> rows[i].code !in pending)
    && Covers(store, rows, pending)
    && DistinctCodes(rows)
    && NewestFirst(rows)
    && NotOlderThanPending(store, rows, pending)
  }

  /** Moving the newest pending row to the end of the listing keeps the
      loop's progress invariant. */
  lemma ListStep(store: Store, rows: seq<Link>, pending: set<string>, k: string)
    requires ListedSoFar(store, rows, pending) && k in pending && store[k].code == k
    requires forall j :: j in pending ==> store[j].created_at <= store[k].created_at
    ensures ListedSoFar(store, rows + [store[k]], pending - {k})
  {
    var rows' := rows + [store[k]];
    assert forall i :: 0 <= i < |rows| ==> rows'[i] == rows[i];
    assert rows'[|rows|] == store[k];
    ListStepDistinct(store, rows, pending, k);
    ListStepOrder(store, rows, pending, k);
    ListStepCovers(store, rows, pending, k);
  }

  lemma ListStepDistinct(store: Store, rows: seq<Link>, pending: set<string>, k: string)
    requires ListedSoFar(store, rows, pending) && k in pending && store[k].code == k
    ensures DistinctCodes(rows + [store[k]])
  {
    var rows' := rows + [store[k]];
    forall i, j | 0 <= i < j < |rows'| ensures rows'[i].code != rows'[j].code {
      if j == |rows| {
        assert rows'[i] == rows[i] && rows[i].code !in pending;
      } else {
        assert rows'[i] == rows[i] && rows'[j] == rows[j];
      }
    }
  }

  lemma ListStepOrder(store: Store, rows: seq<Link>, pending: set<string>, k: string)
    requires ListedSoFar(store, rows, pending) && k in pending
    ensures NewestFirst(rows + [store[k]])
  {
    var rows' := rows + [store[k]];
    forall i, j | 0 <= i < j < |rows'| ensures rows'[i].created_at >= rows'[j].created_at {
      if j == |rows| {
        assert rows'[i] == rows[i];
      } else {
        assert rows'[i] == rows[i] && rows'[j] == rows[j];
      }
    }
  }

  lemma ListStepCovers(store: Store, rows: seq<Link>, pending: set<string>, k: string)
    requires ListedSoFar(store, rows, pending) && k in pending
    ensures Covers(store, rows + [store[k]], pending - {k})
  {
    var rows' := rows + [store[k]];
    forall x | x in store ensures x in pending - {k} || store[x] in rows' {
      if x == k {
        assert rows'[|rows|] == store[x];
      } else if x !in pending {
        var i :| 0 <= i < |rows| && rows[i] == store[x];
        assert rows'[i] == store[x];
      }
    }
  }

  /** GET /api/links: every row exactly once, newest first. Rows created at
      the same instant may come in any order, as SQL leaves it open. */
  method ListLinks(store: Store) returns (r: Reply)
    requires WellFormed(store)
    ensures r.status == 200 && r.store == store && r.body.Rows?
    ensures |r.body.links| == |store|
    ensures forall i :: 0 <= i < |r.body.links| ==> r.body.links[i] in store.Values
    ensures forall k :: k in store ==> store[k] in r.body.links
    ensures forall i, j :: 0 <= i < j < |r.body.links| ==> r.body.links[i].code != r.body.links[j].code
    ensures NewestFirst(r.body.links)
  {
    var rows: seq<Link> := [];
    var pending := store.Keys;
    while pending != {}
      invariant ListedSoFar(store, rows, pending)
      invariant |rows| + |pending| == |store|
      decreases |pending|
    {
      NewestExists(store, pending);
      var k :| k in pending && forall j :: j in pending ==> store[j].created_at <= store[k].created_at;
      assert store[k].code == k;
      ListStep(store, rows, pending, k);
      rows := rows + [store[k]];
      pending := pending - {k};
    }
    r := Reply(200, Rows(rows), store);
  }
}

/** Properties that relate several calls of the `/api/links` handlers. */
module LinksProperties {
  import opened Wrappers
  import opened Schema
  import opened Codes
  import opened Http
  import opened Links
  import Server

  /** Every code in the table passes `isValidCode`: true of the empty table
      and kept by every route that can change the table (create, both lookup
      modes, delete, and the short-URL route), since only create adds rows.
      The listing returns rows and leaves the table alone. */
  lemma HandlersKeepCodesValid(store: Store, url: Option<string>, code: Option<string>,
                               candidates: seq<seq<AlphabetIndex>>, now: Time,
                               urlParses: string -> bool, key: string, redirect: Option<string>)
    requires EnoughCandidates(candidates)
    requires AllCodesValid(store)
    ensures AllCodesValid(CreateLink(store, url, code, candidates, now, urlParses).store)
    ensures AllCodesValid(GetLink(store, key, redirect, now).store)
    ensures AllCodesValid(DeleteLink(store, key).store)
    ensures key != "" ==> AllCodesValid(Server.Visit(store, key, now).store)
  {
    var r := CreateLink(store, url, code, candidates, now, urlParses);
    if r.status == 201 {
      forall k | k in r.store ensures IsValidCode(k) {
        if k != r.body.link.code { assert k in store; }
      }
    }
    assert GetLink(store, key, redirect, now).store.Keys == store.Keys;
    if key != "" {
      assert Server.Visit(store, key, now).store.Keys == store.Keys;
    }
  }

  /** Deleting the code a successful create returned gives back the table
      as it was before the create. */
  lemma DeleteUndoesCreate(store: Store, url: Option<string>, code: Option<string>,
                           candidates: seq<seq<AlphabetIndex>>, now: Time,
                           urlParses: string -> bool)
    requires EnoughCandidates(candidates)
    ensures var created := CreateLink(store, url, code, candidates, now, urlParses);
            created.status == 201 ==>
              DeleteLink(created.store, created.body.link.code) == Reply(200, Message(DeletedMessage), store)
  {
    var created := CreateLink(store, url, code, candidates, now, urlParses);
    if created.status == 201 {
      RemoveAdded(store, created.body.link.code, created.body.link);
    }
  }

  lemma RemoveAdded(store: Store, c: string, v: Link)
    requires c !in store
    ensures store[c := v] - {c} == store
  {
    assert (store[c := v] - {c}).Keys == store.Keys;
  }

  /** After a delete succeeds, the code is unknown in both lookup modes. */
  lemma GetAfterDeleteIsNotFound(store: Store, code: string, redirect: Option<string>, now: Time)
    ensures var deleted := DeleteLink(store, code);
            deleted.status == 200 ==>
              GetLink(deleted.store, code, redirect, now) == Reply(404, Error(LinkNotFoundMessage), deleted.store)
  {
  }

  /** Redirect mode answers the row as it was before the click: a stats
      lookup right after it reports one click more than that answer, and the
      click time. */
  lemma RedirectModeAnswersRowBeforeClick(store: Store, code: string, now: Time, later: Time)
    requires NulFree(code) && code in store && store[code].total_clicks < MaxInt32
    ensures var first := GetLink(store, code, Some("true"), now);
            var second := GetLink(first.store, code, None, later);
            && first.body.link.total_clicks + 1 == second.body.link.total_clicks
            && second.body.link.last_clicked_at == Some(now)
            && first.body.link.last_clicked_at == store[code].last_clicked_at
  {
  }

  /** The walk-through of the service: create with a generated code, follow
      it once in redirect mode, read the stats, delete it, look it up again. */
  lemma CreateFollowReadDelete(url: string, candidates: seq<seq<AlphabetIndex>>,
                               t0: Time, t1: Time, t2: Time, urlParses: string -> bool)
    requires EnoughCandidates(candidates)
    requires url != "" && urlParses(url) && NulFree(url)
    ensures var created := CreateLink(map[], Some(url), None, candidates, t0, urlParses);
            && created.status == 201
            && var c := created.body.link.code;
            && |c| == DefaultLength && IsValidCode(c)
            && var followed := GetLink(created.store, c, Some("true"), t1);
            && followed.status == 200 && followed.body.link.total_clicks == 0
            && var stats := GetLink(followed.store, c, None, t2);
            && stats.status == 200 && stats.body.link.total_clicks == 1
            && stats.body.link.last_clicked_at == Some(t1) && stats.body.link.url == url
            && var deleted := DeleteLink(stats.store, c);
            && deleted.status == 200 && deleted.store == map[]
            && GetLink(deleted.store, c, None, t2).status == 404
  {
    var empty: Store := map[];
    assert GenerateCode(candidates[0]) !in empty;
    assert SomeCandidateFree(empty, candidates);
    var created := CreateLink(empty, Some(url), None, candidates, t0, urlParses);
    var c := created.body.link.code;
    assert created.store == map[c := created.body.link];
  }
}
