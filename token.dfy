/** `token_new` (routes/token.rs): an Admin creates another token for its own account. */
module TokenRoutes {
  import opened Wrappers
  import opened Ids
  import opened AccessTokens
  import opened Time
  import opened Db
  import opened Errors

  /**
   * What `token_new` commits: nothing unless the caller may create tokens;
   * then the token's record and its reverse entry, in one transaction.
   */
  function TokenNewOutcome(t: Tables, auth: AccessTokenRecord, tokenType: AccessTokenType, token: AccessToken, now: Ts)
    : (o: Outcome<(AccountId, AccessToken)>)
    ensures o.result.Err? <==> auth.tokenType != Admin
    ensures o.result.Err? ==> o.tables == t && o.result.error == User(Unauthorized)
    ensures o.result.Ok? ==> o.result.value == (auth.accountId, token)
  {
    match EnsureCanCreateTokens(auth, auth.accountId)
    case Err(e) => Outcome(t, Err(User(e)))
    case Ok(_) =>
      Outcome(t.(accessTokens := t.accessTokens[token := AccessTokenRecord(now, auth.accountId, tokenType)],
                 accessTokensRev := t.accessTokensRev + {(auth.accountId, token)}),
              Ok((auth.accountId, token)))
  }

  /**
   * The answer names exactly what was written: the token is stored with the
   * caller's account and the requested type, the reverse table pairs the two,
   * and no other table changes.
   */
  lemma {:induction false} TokenNewEffect(t: Tables, auth: AccessTokenRecord, tokenType: AccessTokenType, token: AccessToken, now: Ts)
    requires TokenNewOutcome(t, auth, tokenType, token, now).result.Ok?
    ensures var o := TokenNewOutcome(t, auth, tokenType, token, now);
      var (accountId, written) := o.result.value;
      && o.tables.accessTokens.Keys == t.accessTokens.Keys + {written}
      && o.tables.accessTokens[written] == AccessTokenRecord(now, accountId, tokenType)
      && o.tables.accessTokensRev == t.accessTokensRev + {(accountId, written)}
      && (forall other :: other in t.accessTokens && other != written ==> o.tables.accessTokens[other] == t.accessTokens[other])
      && o.tables.(accessTokens := t.accessTokens, accessTokensRev := t.accessTokensRev) == t
  {
  }

  /** Writing both entries together keeps every reverse entry pointing at a token of its account. */
  lemma {:induction false} TokenNewKeepsReverseTokens(t: Tables, auth: AccessTokenRecord, tokenType: AccessTokenType, token: AccessToken, now: Ts)
    requires ReverseTokensSound(t)
    requires token !in t.accessTokens
    ensures ReverseTokensSound(TokenNewOutcome(t, auth, tokenType, token, now).tables)
  {
    var u := TokenNewOutcome(t, auth, tokenType, token, now).tables;
    forall p | p in u.accessTokensRev
      ensures p.1 in u.accessTokens && u.accessTokens[p.1].accountId == p.0
    {
      if p !in t.accessTokensRev {
        assert p == (auth.accountId, token);
      }
    }
  }

  /** `token_new`: the privilege check, then one write transaction with both inserts. */
  method TokenNew(db: Database, auth: AccessTokenRecord, tokenType: AccessTokenType, token: AccessToken, now: Ts)
    returns (r: Result<(AccountId, AccessToken), Cause>)
    modifies db
    ensures db.tables == TokenNewOutcome(old(db.tables), auth, tokenType, token, now).tables
    ensures r == TokenNewOutcome(old(db.tables), auth, tokenType, token, now).result
  {
    var check := EnsureCanCreateTokens(auth, auth.accountId);
    if check.Err? {
      return Err(User(check.error));
    }
    var accountId := auth.accountId;
    var tx := db.BeginWrite();
    tx.InsertAccessToken(token, AccessTokenRecord(now, accountId, tokenType));
    tx.InsertAccessTokenRev(accountId, token);
    db.Commit(tx);
    r := Ok((accountId, token));
  }
}
