/** The `links` table created by `initializeDatabase`, as an immutable map
    from `code` to row. Keying the map by `code` is the UNIQUE constraint;
    `WellFormed` adds the column types and bounds the table declares. */
module Schema {
  import opened Wrappers

  /** A `TIMESTAMP` value; only its order matters here. */
  type Time = nat

  /** `code VARCHAR(8)` */
  const MaxCodeLength := 8

  /** Largest value of a PostgreSQL `INTEGER` column (`total_clicks`). */
  const MaxInt32 := 0x7FFF_FFFF

  /** One row of `links`; `id SERIAL` is not modelled, rows are identified by
      their unique `code`. `url` and `code` are plain strings: never NULL. */
  datatype Link = Link(
    code: string,
    url: string,
    total_clicks: nat,
    last_clicked_at: Option<Time>,
    created_at: Time)

  type Store = map<string, Link>

  /** PostgreSQL text cannot hold U+0000: a query whose parameter contains
      it fails ("invalid byte sequence for encoding"), whatever the query. */
  predicate NulFree(s: string) {
    '\0' !in s
  }

  /** A value `VARCHAR(8)` accepts: at most 8 characters, or a longer one
      whose characters past the 8th are all spaces. */
  predicate FitsCodeColumn(code: string) {
    forall i :: MaxCodeLength <= i < |code| ==> code[i] == ' '
  }

  /** What `VARCHAR(8)` stores for an accepted value: an over-long value is
      cut to its first 8 characters (everything cut off is a space), anything
      else is kept as it is. */
  function CodeColumnValue(code: string): (stored: string)
    requires FitsCodeColumn(code)
    ensures |stored| <= MaxCodeLength && stored <= code
    ensures forall i :: |stored| <= i < |code| ==> code[i] == ' '
    ensures |code| <= MaxCodeLength ==> stored == code
    ensures |code| > MaxCodeLength ==> |stored| == MaxCodeLength
  {
    if |code| <= MaxCodeLength then code else code[..MaxCodeLength]
  }

  /** The table invariants: each row sits under its own code, codes fit the
      column, no stored text holds U+0000, and the click counter fits an
      `INTEGER`. */
  predicate WellFormed(store: Store) {
    forall k :: k in store ==>
      && store[k].code == k
      && |k| <= MaxCodeLength
      && NulFree(k) && NulFree(store[k].url)
      && store[k].total_clicks <= MaxInt32
  }

  /** The row `INSERT INTO links (code, url)` builds: every other column
      takes its declared default. */
  function FreshRow(code: string, url: string, now: Time): Link {
    Link(code, url, 0, None, now)
  }

  /** `link` after one click at `now`. */
  function Clicked(link: Link, now: Time): Link {
    link.(total_clicks := link.total_clicks + 1, last_clicked_at := Some(now))
  }

  /** What an insert hands back: the new row (`RETURNING *`) and the table. */
  datatype Inserted = Inserted(row: Link, store: Store)

  /** `INSERT INTO links (code, url) VALUES ($1, $2) RETURNING *`. The
      database refuses U+0000 in either value, a code `VARCHAR(8)` does not
      accept, and a code whose stored form is already present (UNIQUE).
      Otherwise exactly one row with the defaults is added, under the code as
      the column stores it, and nothing else changes. */
  function Insert(store: Store, code: string, url: string, now: Time): (r: Option<Inserted>)
    ensures r.Some? <==>
      NulFree(code) && NulFree(url) && FitsCodeColumn(code) && CodeColumnValue(code) !in store
    ensures r.Some? ==> r.value.row.code == CodeColumnValue(code) && r.value.row.url == url
    ensures r.Some? ==> r.value.row.total_clicks == 0 && r.value.row.last_clicked_at == None
    ensures r.Some? ==> r.value.row.created_at == now
    ensures r.Some? ==> r.value.store.Keys == store.Keys + {r.value.row.code}
    ensures r.Some? ==> r.value.store[r.value.row.code] == r.value.row
    ensures r.Some? ==> forall k :: k in store ==> r.value.store[k] == store[k]
    ensures r.Some? && WellFormed(store) ==> WellFormed(r.value.store)
  {
    if !NulFree(code) || !NulFree(url) || !FitsCodeColumn(code) then None
    else
      var stored := CodeColumnValue(code);
      if stored in store then None
      else
        var row := FreshRow(stored, url, now);
        assert NulFree(stored) by {
          assert forall i :: 0 <= i < |stored| ==> stored[i] == code[i];
        }
        Some(Inserted(row, store[stored := row]))
  }

  /** `UPDATE links SET total_clicks = total_clicks + 1, last_clicked_at =
      CURRENT_TIMESTAMP WHERE code = $1`. No matching row changes nothing.
      The statement fails, reported as None, on a code holding U+0000 and on
      a counter already at the `INTEGER` maximum ("integer out of range"). */
  function RecordClick(store: Store, code: string, now: Time): (r: Option<Store>)
    ensures r.None? <==> !NulFree(code) || (code in store && store[code].total_clicks >= MaxInt32)
    ensures r.Some? ==> r.value.Keys == store.Keys
    ensures r.Some? ==> forall k :: k in store && k != code ==> r.value[k] == store[k]
    ensures r.Some? && code in store ==>
      && r.value[code].total_clicks == store[code].total_clicks + 1
      && r.value[code].last_clicked_at == Some(now)
      && r.value[code].code == store[code].code
      && r.value[code].url == store[code].url
      && r.value[code].created_at == store[code].created_at
    ensures r.Some? && WellFormed(store) ==> WellFormed(r.value)
  {
    if !NulFree(code) then None
    else if code !in store then Some(store)
    else if store[code].total_clicks >= MaxInt32 then None
    else Some(store[code := Clicked(store[code], now)])
  }
}
