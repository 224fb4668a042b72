/** `parse_keyed_accounts`: all accounts of a response, or the error of the first bad one. */
module Accounts {
  import opened Wrappers
  import opened Errors

  datatype RpcKeyedAccount<+U> = RpcKeyedAccount(pubkey: string, account: U)

  // The parsers of the Solana crates.
  datatype Parsers<!U, +K, +A> = Parsers(key: string -> Option<K>, account: U -> Option<A>)

  function BadKey(request: RpcRequest): Error {
    Error.NewWithRequest(Rpc(ParseError("Pubkey")), request)
  }

  function BadAccount(request: RpcRequest): Error {
    Error.NewWithRequest(Rpc(ParseError("Account from rpc")), request)
  }

  // One element; the key is parsed first.
  function ParseOne<U, K, A>(x: RpcKeyedAccount<U>, parsers: Parsers<U, K, A>, request: RpcRequest)
    : Result<(K, A), Error>
  {
    match parsers.key(x.pubkey)
    case None => Err(BadKey(request))
    case Some(k) =>
      match parsers.account(x.account)
      case None => Err(BadAccount(request))
      case Some(a) => Ok((k, a))
  }

  // The traversal as a recursion from the front.
  function ParseAll<U, K, A>(xs: seq<RpcKeyedAccount<U>>, parsers: Parsers<U, K, A>, request: RpcRequest)
    : Result<seq<(K, A)>, Error>
  {
    if |xs| == 0 then Ok([])
    else match ParseOne(xs[0], parsers, request)
      case Err(e) => Err(e)
      case Ok(first) =>
        match ParseAll(xs[1..], parsers, request)
        case Err(e) => Err(e)
        case Ok(rest) => Ok([first] + rest)
  }

  function Prepend<T>(done: seq<T>, rest: Result<seq<T>, Error>): Result<seq<T>, Error> {
    match rest
    case Err(e) => Err(e)
    case Ok(more) => Ok(done + more)
  }

  lemma PrependNothing<T>(r: Result<seq<T>, Error>)
    ensures Prepend([], r) == r
  {
    if r.Ok? {
      assert [] + r.value == r.value;
    }
  }

  lemma AfterOne<U, K, A>(
      done: seq<(K, A)>, xs: seq<RpcKeyedAccount<U>>, parsers: Parsers<U, K, A>, request: RpcRequest)
    requires |xs| > 0
    ensures Prepend(done, ParseAll(xs, parsers, request))
            == match ParseOne(xs[0], parsers, request)
               case Err(e) => Err(e)
               case Ok(first) => Prepend(done + [first], ParseAll(xs[1..], parsers, request))
  {
    if ParseOne(xs[0], parsers, request).Ok? && ParseAll(xs[1..], parsers, request).Ok? {
      var first, rest := ParseOne(xs[0], parsers, request).value, ParseAll(xs[1..], parsers, request).value;
      assert done + ([first] + rest) == done + [first] + rest;
    }
  }

  method ParseKeyedAccounts<U, K, A>(accounts: seq<RpcKeyedAccount<U>>, parsers: Parsers<U, K, A>, request: RpcRequest)
    returns (r: Result<seq<(K, A)>, Error>)
    ensures r == ParseAll(accounts, parsers, request)
  {
    var pubkeyAccounts: seq<(K, A)> := [];
    var i := 0;
    assert accounts[0..] == accounts;
    PrependNothing(ParseAll(accounts, parsers, request));
    while i < |accounts|
      invariant 0 <= i <= |accounts|
      invariant ParseAll(accounts, parsers, request)
                == Prepend(pubkeyAccounts, ParseAll(accounts[i..], parsers, request))
    {
      AfterOne(pubkeyAccounts, accounts[i..], parsers, request);
      assert accounts[i..][1..] == accounts[i + 1..];
      var pubkey := parsers.key(accounts[i].pubkey);
      if pubkey.None? {
        return Err(BadKey(request));
      }
      var account := parsers.account(accounts[i].account);
      if account.None? {
        return Err(BadAccount(request));
      }
      pubkeyAccounts := pubkeyAccounts + [(pubkey.value, account.value)];
      i := i + 1;
    }
    assert pubkeyAccounts + [] == pubkeyAccounts;
    r := Ok(pubkeyAccounts);
  }

  ghost predicate Good<U, K, A>(x: RpcKeyedAccount<U>, parsers: Parsers<U, K, A>) {
    parsers.key(x.pubkey).Some? && parsers.account(x.account).Some?
  }

  // The list holds what every key and every account parses to, in the order of the response.
  ghost predicate Lists<U, K, A>(xs: seq<RpcKeyedAccount<U>>, parsers: Parsers<U, K, A>, r: seq<(K, A)>) {
    && |r| == |xs|
    && forall i :: 0 <= i < |xs| ==>
         parsers.key(xs[i].pubkey) == Some(r[i].0) && parsers.account(xs[i].account) == Some(r[i].1)
  }

  // The i-th element is the first bad one; a bad key takes precedence over a bad account.
  ghost predicate FirstBad<U, K, A>(
      xs: seq<RpcKeyedAccount<U>>, parsers: Parsers<U, K, A>, request: RpcRequest, i: nat, e: Error)
  {
    && i < |xs| && !Good(xs[i], parsers)
    && (forall k :: 0 <= k < i ==> Good(xs[k], parsers))
    && var expected := if parsers.key(xs[i].pubkey).None? then "Pubkey" else "Account from rpc";
       e == Error(Some(request), Rpc(ParseError(expected)))
  }

  lemma FirstBadLater<U, K, A>(
      xs: seq<RpcKeyedAccount<U>>, parsers: Parsers<U, K, A>, request: RpcRequest, i: nat, e: Error)
    requires |xs| > 0 && Good(xs[0], parsers) && FirstBad(xs[1..], parsers, request, i, e)
    ensures FirstBad(xs, parsers, request, i + 1, e)
  {
    forall k | 0 <= k < i + 1 ensures Good(xs[k], parsers) {
      assert k > 0 ==> Good(xs[1..][k - 1], parsers);
    }
  }

  lemma {:induction false} OkMeans<U, K, A>(
      xs: seq<RpcKeyedAccount<U>>, parsers: Parsers<U, K, A>, request: RpcRequest)
    requires ParseAll(xs, parsers, request).Ok?
    ensures Lists(xs, parsers, ParseAll(xs, parsers, request).value)
  {
    if |xs| > 0 {
      OkMeans(xs[1..], parsers, request);
      assert forall i :: 0 < i < |xs| ==> xs[i] == xs[1..][i - 1];
    }
  }

  lemma {:induction false} ErrMeans<U, K, A>(
      xs: seq<RpcKeyedAccount<U>>, parsers: Parsers<U, K, A>, request: RpcRequest)
    returns (i: nat)
    requires ParseAll(xs, parsers, request).Err?
    ensures FirstBad(xs, parsers, request, i, ParseAll(xs, parsers, request).error)
  {
    if ParseOne(xs[0], parsers, request).Err? {
      i := 0;
    } else {
      var later := ErrMeans(xs[1..], parsers, request);
      FirstBadLater(xs, parsers, request, later, ParseAll(xs, parsers, request).error);
      i := later + 1;
    }
  }

  lemma ListsIsUnique<U, K, A>(
      xs: seq<RpcKeyedAccount<U>>, parsers: Parsers<U, K, A>, r: seq<(K, A)>, r': seq<(K, A)>)
    requires Lists(xs, parsers, r) && Lists(xs, parsers, r')
    ensures r == r'
  {
    assert forall i :: 0 <= i < |xs| ==> r[i] == r'[i];
  }

  lemma BadIsNotListed<U, K, A>(
      xs: seq<RpcKeyedAccount<U>>, parsers: Parsers<U, K, A>, request: RpcRequest, i: nat, e: Error, r: seq<(K, A)>)
    requires FirstBad(xs, parsers, request, i, e)
    ensures !Lists(xs, parsers, r)
  {
  }

  // Exactly when the result is a list: every key and every account parses, and
  // these are what they parse to. Exactly when it is an error: that of the first
  // bad element.
  lemma ParseMeans<U, K, A>(
      xs: seq<RpcKeyedAccount<U>>, parsers: Parsers<U, K, A>, request: RpcRequest, r: seq<(K, A)>, e: Error)
    ensures ParseAll(xs, parsers, request) == Ok(r) <==> Lists(xs, parsers, r)
    ensures ParseAll(xs, parsers, request) == Err(e) <==> exists i :: FirstBad(xs, parsers, request, i, e)
  {
    var all := ParseAll(xs, parsers, request);
    if all.Ok? {
      OkMeans(xs, parsers, request);
      if Lists(xs, parsers, r) {
        ListsIsUnique(xs, parsers, r, all.value);
      }
      if exists i :: FirstBad(xs, parsers, request, i, e) {
        var i: nat :| FirstBad(xs, parsers, request, i, e);
        BadIsNotListed(xs, parsers, request, i, e, all.value);
      }
    } else {
      var k := ErrMeans(xs, parsers, request);
      BadIsNotListed(xs, parsers, request, k, all.error, r);
    }
  }
}
