/** The application state (state.rs): bootstrapping the root account, and chart URLs. */
module AppState {
  import opened Wrappers
  import opened Ids
  import opened AccessTokens
  import opened Time
  import opened Db
  import opened Errors
  import Text

  /**
   * What `init_root_account` commits. With a root account present it answers
   * `None` and writes nothing. Otherwise it writes the root account, its
   * account record and a Root token; `credsWritten` is whether the creds file
   * could be written, and when it could not the transaction is dropped.
   */
  function InitRootOutcome(t: Tables, accountId: AccountId, token: AccessToken, now: Ts, credsWritten: bool)
    : (o: Outcome<Option<(AccountId, AccessToken)>>)
    ensures t.rootAccount != {} ==> o == Outcome(t, Ok(None))
    ensures o.result.Err? <==> t.rootAccount == {} && !credsWritten
    ensures o.result.Err? ==> o.tables == t && o.result.error == Internal(Io)
    ensures o.result == Ok(None) ==> o.tables == t
    ensures o.result.Ok? && o.result.value.Some? ==> o.result.value.value == (accountId, token)
  {
    if t.rootAccount != {} then Outcome(t, Ok(None))
    else
      var u := t.(rootAccount := t.rootAccount + {accountId},
                  accounts := t.accounts[accountId := AccountRecord(now)],
                  accessTokens := t.accessTokens[token := AccessTokenRecord(now, accountId, Root)]);
      if !credsWritten then Outcome(t, Err(Internal(Io)))
      else Outcome(u, Ok(Some((accountId, token))))
  }

  /**
   * A bootstrapped root account is the only root account, it has an account
   * record, and the token returned is a Root token of that account: it may
   * create accounts.
   */
  lemma {:induction false} InitRootEffect(t: Tables, accountId: AccountId, token: AccessToken, now: Ts)
    requires t.rootAccount == {}
    ensures var u := InitRootOutcome(t, accountId, token, now, true).tables;
      && u.rootAccount == {accountId}
      && u.accounts.Keys == t.accounts.Keys + {accountId}
      && u.accounts[accountId] == AccountRecord(now)
      && u.accessTokens.Keys == t.accessTokens.Keys + {token}
      && u.accessTokens[token].accountId == accountId && u.accessTokens[token].created == now
      && EnsureCanCreateAccounts(u.accessTokens[token]).Ok?
      && (forall a :: a in t.accounts && a != accountId ==> u.accounts[a] == t.accounts[a])
      && (forall k :: k in t.accessTokens && k != token ==> u.accessTokens[k] == t.accessTokens[k])
      && u.(rootAccount := t.rootAccount, accounts := t.accounts, accessTokens := t.accessTokens) == t
  {
  }

  /** Bootstrapping is idempotent: once it has succeeded, another run answers `None` and changes nothing. */
  lemma {:induction false} InitRootIdempotent(t: Tables, accountId: AccountId, token: AccessToken, now: Ts, credsWritten: bool,
                           accountId': AccountId, token': AccessToken, now': Ts, credsWritten': bool)
    requires InitRootOutcome(t, accountId, token, now, credsWritten).result.Ok?
    ensures var u := InitRootOutcome(t, accountId, token, now, credsWritten).tables;
      InitRootOutcome(u, accountId', token', now', credsWritten') == Outcome(u, Ok(None))
  {
  }

  /** `init_root_account`: one write transaction, dropped when the creds file cannot be written. */
  method InitRootAccount(db: Database, accountId: AccountId, token: AccessToken, now: Ts, credsWritten: bool)
    returns (r: Result<Option<(AccountId, AccessToken)>, Cause>)
    modifies db
    ensures db.tables == InitRootOutcome(old(db.tables), accountId, token, now, credsWritten).tables
    ensures r == InitRootOutcome(old(db.tables), accountId, token, now, credsWritten).result
  {
    var tx := db.BeginWrite();
    if tx.tables.rootAccount != {} {
      db.Commit(tx);
      return Ok(None);
    }
    tx.InsertRootAccount(accountId);
    tx.InsertAccount(accountId, AccountRecord(now));
    tx.InsertAccessToken(token, AccessTokenRecord(now, accountId, Root));
    if !credsWritten {
      return Err(Internal(Io));
    }
    db.Commit(tx);
    r := Ok(Some((accountId, token)));
  }

  /** `html_chart_url` */
  function HtmlChartUrl(id: MetricId): string
  {
    "/s/" + Display(id.uuid)
  }

  /** `svg_chart_url` */
  function SvgChartUrl(id: MetricId): string
  {
    "/s/" + Display(id.uuid) + "/svg"
  }

  /** The SVG URL is the chart URL with "/svg" appended, and the chart URL's last segment parses back to the metric. */
  lemma {:induction false} ChartUrls(id: MetricId)
    ensures SvgChartUrl(id) == HtmlChartUrl(id) + "/svg"
    ensures Text.StartsWith(HtmlChartUrl(id), "/s/")
    ensures Parse(HtmlChartUrl(id)[3..]) == Ok(id.uuid)
  {
    assert HtmlChartUrl(id)[3..] == Display(id.uuid);
    ParseDisplay(id.uuid);
  }
}
