/** client_puzzle_manager: the server nonces of the current and the previous round, each with the
    table of the client nonces accepted under it. */
module ClientPuzzle {
  import opened Bits
  import opened Sequences

  // ------------------------------------------------------------ one solution

  /** Bit k of a byte, counted from its highest. */
  predicate TopBit(b: bv8, k: nat)
    requires k < 8
  {
    Bit(b, 7 - k)
  }

  /** Bit j of a hash, the highest bit of its first byte first. */
  predicate HashBit(hash: seq<bv8>, j: nat)
    requires j < 8 * |hash|
  {
    TopBit(hash[j / 8], j % 8)
  }

  /** uint8 mask = 0xFF << (8 - d). */
  function TopMask(d: nat): bv8
    requires d <= 8
  {
    (0xFF as bv8) << (8 - d)
  }

  lemma TopMaskBits(d: nat, k: nat)
    requires d <= 8 && k < 8
    ensures TopBit(TopMask(d), k) <==> k < d
  {
    match d
    case 0 => case 1 => case 2 => case 3 => case 4 => case 5 => case 6 => case 7 => case 8 =>
  }

  lemma CommonBits(m: bv8, b: bv8)
    ensures m & b == 0 <==>
      && !(TopBit(m, 0) && TopBit(b, 0)) && !(TopBit(m, 1) && TopBit(b, 1)) && !(TopBit(m, 2) && TopBit(b, 2))
      && !(TopBit(m, 3) && TopBit(b, 3)) && !(TopBit(m, 4) && TopBit(b, 4)) && !(TopBit(m, 5) && TopBit(b, 5))
      && !(TopBit(m, 6) && TopBit(b, 6)) && !(TopBit(m, 7) && TopBit(b, 7))
  {
  }

  /** The masked byte is zero just when its first d bits are. */
  lemma MaskedByte(b: bv8, d: nat)
    requires d <= 8
    ensures TopMask(d) & b == 0 <==> forall k :: 0 <= k < d ==> !TopBit(b, k)
  {
    CommonBits(TopMask(d), b);
    forall k | 0 <= k < 8
      ensures TopBit(TopMask(d), k) <==> k < d
    {
      TopMaskBits(d, k);
    }
    hide TopMask;
    hide TopBit;
  }

  /** None of the first d bits is set. */
  ghost predicate Clear(hash: seq<bv8>, d: nat)
    requires d <= 8 * |hash|
  {
    forall j :: 0 <= j < d ==> !HashBit(hash, j)
  }

  /** The bits of byte i come after those of the bytes before it. */
  lemma ClearStep(hash: seq<bv8>, i: nat, d: nat)
    requires i < |hash| && d <= 8
    ensures Clear(hash, 8 * i + d) <==> Clear(hash, 8 * i) && forall k :: 0 <= k < d ==> !TopBit(hash[i], k)
  {
    hide TopBit;
    if Clear(hash, 8 * i + d) {
      forall k | 0 <= k < d
        ensures !TopBit(hash[i], k)
      {
        assert !HashBit(hash, 8 * i + k);
      }
    }
    if Clear(hash, 8 * i) && forall k :: 0 <= k < d ==> !TopBit(hash[i], k) {
      forall j | 0 <= j < 8 * i + d
        ensures !HashBit(hash, j)
      {
        assert j >= 8 * i ==> j / 8 == i && j % 8 == j - 8 * i;
      }
    }
  }

  lemma ClearPrefix(hash: seq<bv8>, c: nat, d: nat)
    requires c <= d <= 8 * |hash|
    ensures Clear(hash, d) ==> Clear(hash, c)
  {
  }

  /** check_one_solution, given the hash of the solution, the client and the two nonces: the first
      difficulty bits must be zero. */
  method CheckOneSolution(hash: seq<bv8>, difficulty: nat) returns (r: bool)
    requires difficulty <= 8 * |hash| && |hash| > 0
    ensures r <==> Clear(hash, difficulty)
  {
    var index: nat, left: nat := 0, difficulty;
    assert Clear(hash, 0);
    hide *;
    while left > 8
      invariant left + 8 * index == difficulty && index < |hash| && Clear(hash, 8 * index)
    {
      MaskedByte(hash[index], 8);
      WholeByte(hash[index]);
      ClearStep(hash, index, 8);
      ClearPrefix(hash, 8 * index + 8, difficulty);
      if hash[index] != 0 {
        return false;
      }
      index, left := index + 1, left - 8;
    }
    MaskedByte(hash[index], left);
    ClearStep(hash, index, left);
    r := TopMask(left) & hash[index] == 0;
  }

  lemma WholeByte(b: bv8)
    ensures TopMask(8) & b == b
  {
  }

  // ------------------------------------------------------ accepting solutions

  type Nonce = n: nat | n < 0x1_0000_0000_0000_0000

  datatype ResultCode = Success | InvalidSolution | InvalidServerNonce | InvalidClientNonce | InvalidPuzzleDifficulty

  /** The nonces of two rounds and the client nonces accepted under each. */
  datatype Puzzles = Puzzles(current: Nonce, last: Nonce, accepted: set<Nonce>, acceptedLast: set<Nonce>)

  /** What the server is asked: to look at the clock, or to check a solution. */
  datatype Request =
    | Tick(refresh: bool, next: Nonce)
    | Check(client: Nonce, server: Nonce, solved: bool, rightDifficulty: bool)

  function Answer(p: Puzzles, r: Request): (ResultCode, Puzzles)
    requires r.Check?
  {
    if !r.rightDifficulty then (InvalidPuzzleDifficulty, p)
    else if r.server != p.current && r.server != p.last then (InvalidServerNonce, p)
    else if !r.solved then (InvalidSolution, p)
    else if r.server == p.current then
      if r.client in p.accepted then (InvalidClientNonce, p) else (Success, p.(accepted := p.accepted + {r.client}))
    else
      if r.client in p.acceptedLast then (InvalidClientNonce, p)
      else (Success, p.(acceptedLast := p.acceptedLast + {r.client}))
  }

  function After(p: Puzzles, r: Request): Puzzles {
    if r.Tick? then if r.refresh then Puzzles(r.next, p.current, {}, p.accepted) else p
    else Answer(p, r).1
  }

  function Run(p: Puzzles, requests: seq<Request>): Puzzles {
    if requests == [] then p else After(Run(p, requests[..|requests| - 1]), requests[|requests| - 1])
  }

  /** Request i is a check that succeeds. */
  predicate Succeeds(p: Puzzles, requests: seq<Request>, i: nat)
    requires i < |requests|
  {
    requests[i].Check? && Answer(Run(p, requests[..i]), requests[i]).0 == Success
  }

  /** A new server. That its nonces differ is part of what a run is assumed to have. */
  predicate Fresh(p: Puzzles) {
    p.accepted == {} && p.acceptedLast == {}
  }

  /** The server nonces of a run, the two it starts with first. */
  function Nonces(p: Puzzles, requests: seq<Request>): seq<Nonce> {
    if requests == [] then [p.last, p.current]
    else
      var r := requests[|requests| - 1];
      Nonces(p, requests[..|requests| - 1]) + (if r.Tick? && r.refresh then [r.next] else [])
  }

  /** The two tables hold exactly the client nonces accepted under their server nonces. */
  ghost predicate TablesRight(p: Puzzles, requests: seq<Request>) {
    var q := Run(p, requests);
    && (forall c :: c in q.accepted <==> Used(p, requests, c, q.current))
    && (forall c :: c in q.acceptedLast <==> Used(p, requests, c, q.last))
  }

  /** Some request was accepted for this pair of nonces. */
  ghost predicate Used(p: Puzzles, requests: seq<Request>, client: Nonce, server: Nonce) {
    exists i :: 0 <= i < |requests| && Succeeds(p, requests, i)
                && requests[i].client == client && requests[i].server == server
  }

  lemma UsedStep(p: Puzzles, requests: seq<Request>, c: Nonce, s: Nonce)
    requires requests != []
    ensures var n := |requests| - 1;
      Used(p, requests, c, s) <==>
        Used(p, requests[..n], c, s) || (Succeeds(p, requests, n) && requests[n].client == c && requests[n].server == s)
  {
    var n := |requests| - 1;
    forall i | 0 <= i < n
      ensures Succeeds(p, requests[..n], i) == Succeeds(p, requests, i)
    {
      assert requests[..n][..i] == requests[..i];
    }
    if Used(p, requests[..n], c, s) {
      var i :| 0 <= i < n && Succeeds(p, requests[..n], i) && requests[i].client == c && requests[i].server == s;
      assert Succeeds(p, requests, i);
    }
    if Used(p, requests, c, s) {
      var i :| 0 <= i < |requests| && Succeeds(p, requests, i) && requests[i].client == c && requests[i].server == s;
      assert i < n ==> Succeeds(p, requests[..n], i);
    }
  }

  /** The current and the previous server nonce are the last two of the run. */
  lemma {:induction false} LastNonces(p: Puzzles, requests: seq<Request>)
    ensures var ns, q := Nonces(p, requests), Run(p, requests);
      |ns| >= 2 && q.current == ns[|ns| - 1] && q.last == ns[|ns| - 2]
  {
    if requests != [] {
      LastNonces(p, requests[..|requests| - 1]);
    }
  }

  /** A pair can only have been used under a server nonce of the run so far. */
  lemma {:induction false} UsedNonce(p: Puzzles, requests: seq<Request>, c: Nonce, s: Nonce)
    requires Used(p, requests, c, s)
    ensures s in Nonces(p, requests)
  {
    var n := |requests| - 1;
    UsedStep(p, requests, c, s);
    if Used(p, requests[..n], c, s) {
      UsedNonce(p, requests[..n], c, s);
    } else {
      LastNonces(p, requests[..n]);
    }
  }

  lemma LastTwoDiffer(p: Puzzles, requests: seq<Request>)
    requires Distinct(Nonces(p, requests))
    ensures Run(p, requests).current != Run(p, requests).last
  {
    LastNonces(p, requests);
    hide Nonces;
    hide Run;
  }

  /** One more request. */
  lemma TablesStep(p: Puzzles, before: seq<Request>, r: Request)
    requires TablesRight(p, before) && Run(p, before).current != Run(p, before).last
    requires r.Tick? && r.refresh ==> forall c :: !Used(p, before, c, r.next)
    ensures TablesRight(p, before + [r])
  {
    var requests := before + [r];
    assert requests[..|before|] == before;
    var q := Run(p, requests);
    hide Used;
    forall c
      ensures c in q.accepted <==> Used(p, requests, c, q.current)
    {
      UsedStep(p, requests, c, q.current);
    }
    forall c
      ensures c in q.acceptedLast <==> Used(p, requests, c, q.last)
    {
      UsedStep(p, requests, c, q.last);
    }
  }

  /** Each table holds exactly the client nonces accepted under its server nonce. */
  lemma {:induction false} TablesAreRight(p: Puzzles, requests: seq<Request>)
    requires Fresh(p) && Distinct(Nonces(p, requests))
    ensures TablesRight(p, requests)
  {
    if requests != [] {
      hide Distinct;
      hide Used;
      var n := |requests| - 1;
      var before, r := requests[..n], requests[n];
      NoncesPrefix(p, requests, n);
      DistinctPrefix(Nonces(p, before), Nonces(p, requests));
      TablesAreRight(p, before);
      LastTwoDiffer(p, before);
      assert requests == before + [r];
      if r.Tick? && r.refresh {
        NewNonce(p, before, r);
      }
      TablesStep(p, before, r);
    }
  }

  /** Nothing was accepted yet under a nonce that is new. */
  lemma NewNonce(p: Puzzles, requests: seq<Request>, r: Request)
    requires r.Tick? && r.refresh && Distinct(Nonces(p, requests + [r]))
    ensures forall c :: !Used(p, requests, c, r.next)
  {
    assert (requests + [r])[..|requests|] == requests;
    assert Nonces(p, requests + [r]) == Nonces(p, requests) + [r.next];
    forall c
      ensures !Used(p, requests, c, r.next)
    {
      if Used(p, requests, c, r.next) {
        UsedNonce(p, requests, c, r.next);
        var ns := Nonces(p, requests);
        var i :| 0 <= i < |ns| && ns[i] == r.next;
        NotDistinct(ns, r.next, i);
      }
    }
  }

  lemma NotDistinct(s: seq<Nonce>, x: Nonce, i: nat)
    requires i < |s| && s[i] == x
    ensures !Distinct(s + [x])
  {
    var t := s + [x];
    assert t[i] == t[|s|];
  }

  lemma DistinctPrefix(s: seq<Nonce>, t: seq<Nonce>)
    requires s <= t && Distinct(t)
    ensures Distinct(s)
  {
    assert forall i :: 0 <= i < |s| ==> s[i] == t[i];
  }

  /** A check succeeds exactly when it has the right difficulty, names the current or the previous
      server nonce, is solved, and the pair of nonces was not accepted before. */
  lemma SucceedsIff(p: Puzzles, requests: seq<Request>, i: nat)
    requires Fresh(p) && i < |requests| && requests[i].Check? && Distinct(Nonces(p, requests[..i]))
    ensures var r, q := requests[i], Run(p, requests[..i]);
      Succeeds(p, requests, i) <==>
        && r.rightDifficulty && r.solved && (r.server == q.current || r.server == q.last)
        && !Used(p, requests[..i], r.client, r.server)
  {
    TablesAreRight(p, requests[..i]);
  }

  /** A check fails with the code of the first of these that goes wrong: the difficulty, the server
      nonce, which must be one of the last two of the run, the solution, and the client nonce, which
      must be new under that server nonce. */
  lemma FailsBecause(p: Puzzles, requests: seq<Request>, i: nat)
    requires Fresh(p) && i < |requests| && requests[i].Check? && Distinct(Nonces(p, requests[..i]))
    ensures |Nonces(p, requests[..i])| >= 2
    ensures var r, ns := requests[i], Nonces(p, requests[..i]);
      var code := Answer(Run(p, requests[..i]), r).0;
      var known := r.server == ns[|ns| - 1] || r.server == ns[|ns| - 2];
      && (code == InvalidPuzzleDifficulty <==> !r.rightDifficulty)
      && (code == InvalidServerNonce <==> r.rightDifficulty && !known)
      && (code == InvalidSolution <==> r.rightDifficulty && known && !r.solved)
      && (code == InvalidClientNonce <==>
            r.rightDifficulty && known && r.solved && Used(p, requests[..i], r.client, r.server))
  {
    TablesAreRight(p, requests[..i]);
    LastNonces(p, requests[..i]);
    hide Used;
    hide Nonces;
    hide Run;
  }

  /** No pair of nonces is accepted twice in a run. */
  lemma AcceptedOnce(p: Puzzles, requests: seq<Request>, i: nat, j: nat)
    requires Fresh(p) && Distinct(Nonces(p, requests)) && i < j < |requests|
    requires Succeeds(p, requests, i) && Succeeds(p, requests, j)
    ensures requests[i].client != requests[j].client || requests[i].server != requests[j].server
  {
    NoncesPrefix(p, requests, j);
    DistinctPrefix(Nonces(p, requests[..j]), Nonces(p, requests));
    SucceedsIff(p, requests, j);
    assert requests[..j][..i] == requests[..i];
    assert Succeeds(p, requests[..j], i);
  }

  lemma {:induction false} NoncesPrefix(p: Puzzles, requests: seq<Request>, j: nat)
    requires j <= |requests|
    ensures Nonces(p, requests[..j]) <= Nonces(p, requests)
  {
    if j < |requests| {
      NoncesPrefix(p, requests[..|requests| - 1], j);
      assert requests[..|requests| - 1][..j] == requests[..j];
    } else {
      assert requests[..j] == requests;
    }
  }

  // -------------------------------------------------------------- the manager

  const HASH_TABLE_SIZE := 387

  /** nonce_table: the chains of the client nonces, newest first. */
  class NonceTable {
    var hashTable: seq<seq<Nonce>>

    ghost predicate Valid()
      reads this
    {
      && |hashTable| == HASH_TABLE_SIZE
      && forall b, n :: 0 <= b < HASH_TABLE_SIZE && n in hashTable[b] ==> n % HASH_TABLE_SIZE == b
    }

    ghost predicate Has(n: Nonce)
      requires Valid()
      reads this
    {
      n in hashTable[n % HASH_TABLE_SIZE]
    }

    constructor ()
      ensures Valid() && forall n :: !Has(n)
    {
      hashTable := seq(HASH_TABLE_SIZE, b => []);
    }

    method Reset()
      modifies this
      ensures Valid() && forall n :: !Has(n)
    {
      hashTable := seq(HASH_TABLE_SIZE, b => []);
    }

    /** check_add: adds the nonce unless it is there. */
    method CheckAdd(n: Nonce) returns (added: bool)
      requires Valid()
      modifies this
      ensures Valid() && added == !old(Has(n)) && forall m :: Has(m) <==> old(Has(m)) || m == n
    {
      var b := n % HASH_TABLE_SIZE;
      var walk := 0;
      while walk < |hashTable[b]|
        invariant walk <= |hashTable[b]| && n !in hashTable[b][..walk]
      {
        if hashTable[b][walk] == n {
          return false;
        }
        walk := walk + 1;
      }
      hashTable := hashTable[b := [n] + hashTable[b]];
      return true;
    }
  }

  const PUZZLE_REFRESH_TIME := 30000

  /** client_puzzle_manager. */
  class Manager {
    const difficulty: nat
    var lastUpdate: int
    var current: Nonce
    var last: Nonce
    var currentTable: NonceTable
    var lastTable: NonceTable

    ghost predicate Valid()
      reads this, currentTable, lastTable
    {
      currentTable != lastTable && currentTable.Valid() && lastTable.Valid()
    }

    /** The state of the manager is p. */
    ghost predicate Is(p: Puzzles)
      requires Valid()
      reads this, currentTable, lastTable
    {
      && current == p.current && last == p.last
      && (forall n :: n in p.accepted <==> currentTable.Has(n))
      && (forall n :: n in p.acceptedLast <==> lastTable.Has(n))
    }

    constructor (difficulty: nat, current: Nonce, last: Nonce, lastUpdate: int)
      ensures Valid() && Is(Puzzles(current, last, {}, {})) && this.difficulty == difficulty
    {
      this.difficulty, this.lastUpdate, this.current, this.last := difficulty, lastUpdate, current, last;
      currentTable := new NonceTable();
      lastTable := new NonceTable();
    }

    /** tick, with the nonce that the random generator would give. */
    method TickAt(time: int, random: Nonce, ghost p: Puzzles)
      requires Valid() && Is(p)
      modifies this, lastTable
      ensures Valid() && Is(After(p, Tick(time - old(lastUpdate) > PUZZLE_REFRESH_TIME, random)))
      ensures if time - old(lastUpdate) > 30000 then
          && lastUpdate == time && current == random && last == old(current) && lastTable == old(currentTable)
          && currentTable == old(lastTable) && (forall n :: !currentTable.Has(n))
          && lastTable.hashTable == old(currentTable.hashTable)
        else
          && lastUpdate == old(lastUpdate) && current == old(current) && last == old(last)
          && currentTable == old(currentTable) && lastTable == old(lastTable)
          && currentTable.hashTable == old(currentTable.hashTable) && lastTable.hashTable == old(lastTable.hashTable)
      ensures {currentTable, lastTable} == old({currentTable, lastTable})
    {
      if time - lastUpdate > PUZZLE_REFRESH_TIME {
        lastUpdate := time;
        last := current;
        var temp := lastTable;
        lastTable := currentTable;
        currentTable := temp;
        currentTable.Reset();
        current := random;
      }
    }

    /** check_solution, with the hash of the solution, the client and the two nonces. */
    method CheckSolution(hash: seq<bv8>, client: Nonce, server: Nonce, claimed: nat, ghost p: Puzzles)
      returns (r: ResultCode)
      requires Valid() && Is(p) && 0 < |hash| && difficulty <= 8 * |hash|
      modifies currentTable, lastTable
      ensures Valid() && var check := Check(client, server, Clear(hash, difficulty), claimed == difficulty);
        r == Answer(p, check).0 && Is(After(p, check))
      ensures r == InvalidPuzzleDifficulty <==> claimed != difficulty
      ensures r == InvalidServerNonce <==> claimed == difficulty && server != current && server != last
      ensures r == InvalidSolution <==>
                claimed == difficulty && (server == current || server == last) && !Clear(hash, difficulty)
      ensures r == InvalidClientNonce <==>
                claimed == difficulty && Clear(hash, difficulty)
                && ((server == current && old(currentTable.Has(client)))
                    || (server != current && server == last && old(lastTable.Has(client))))
    {
      if claimed != difficulty {
        return InvalidPuzzleDifficulty;
      }
      if server != current && server != last {
        return InvalidServerNonce;
      }
      var table := if server == current then currentTable else lastTable;
      var solved := CheckOneSolution(hash, claimed);
      if !solved {
        return InvalidSolution;
      }
      var added := table.CheckAdd(client);
      r := if added then Success else InvalidClientNonce;
    }
  }
}
