/** The PostgreSQL limiter: `Allow` is one transaction on the client's row, serialised by its row lock. */
module PostgresLimiter {
  import opened Machine
  import opened RateLimit
  import opened Trace
  import PB = PostgresBucket

  class PostgresRateLimiter {
    var rows: map<string, PB.Row>

    constructor ()
      ensures rows == map[]
    {
      rows := map[];
    }

    /** A client without a row is let through; a denied request writes nothing. `now` is read under the row lock. */
    method Allow(client: string, now: int) returns (ok: bool)
      modifies this
      ensures client !in old(rows) ==> ok && rows == old(rows)
      ensures client in old(rows) ==>
        var (row', verdict) := PB.Step(old(rows)[client], now);
        ok == (verdict == Admitted) && rows == old(rows)[client := row']
      ensures !ok ==> rows == old(rows)
    {
      if client !in rows {
        return true;
      }
      var row := rows[client];
      var elapsed := now - row.last;
      var tokensToAdd := ToInt64(Credit(elapsed, row.rate));
      var newTokens := Min(row.capacity, Add64(row.tokens, tokensToAdd));
      if newTokens > 0 {
        newTokens := newTokens - 1;
        rows := rows[client := row.(tokens := newTokens, last := now)];
        return true;
      }
      assert rows[client := row] == rows;
      return false;
    }

    /** `saved` says whether the database takes the upsert; a failure is returned and changes nothing. */
    method SetRateLimit(client: string, settings: Settings, now: int, saved: bool) returns (ok: bool)
      modifies this
      ensures ok == saved
      ensures rows == if saved
        then old(rows)[client := PB.Row(settings.capacity, settings.rate, settings.capacity, now)]
        else old(rows)
    {
      if !saved {
        return false;
      }
      rows := rows[client := PB.Row(settings.capacity, settings.rate, settings.capacity, now)];
      return true;
    }

    /** `deleted` says whether the database takes the delete; a failure is returned and changes nothing. */
    method RemoveRateLimit(client: string, deleted: bool) returns (ok: bool)
      modifies this
      ensures ok == deleted
      ensures rows == if deleted then old(rows) - {client} else old(rows)
    {
      if !deleted {
        return false;
      }
      rows := rows - {client};
      return true;
    }
  }
}
