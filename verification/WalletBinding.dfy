/** The wallet-binding protocol: connect hands out a nonce, verify accepts its signature once. */
module WalletBinding {
  import opened Wrappers
  import opened Text

  datatype ChainType = Evm | Solana | Endless

  datatype WalletError =
    | MissingField | BoundToAnotherOwner | IdTaken
    | SignatureRequired | NonceNotFound | BindingMismatch | NonceUsed | NonceMismatch | NonceExpired | SignatureInvalid

  datatype Result<+T> = Ok(value: T) | Err(error: WalletError)

  datatype Row = Row(bindingId: string, ownerRef: string, walletType: string, chainType: ChainType, address: string,
                     signature: string, nonce: string, expiresAt: int, verified: bool, createdAt: int)

  datatype ConnectInput = ConnectInput(ownerRef: string, walletType: string, chainType: ChainType, address: string)
  datatype VerifyInput = VerifyInput(bindingId: string, ownerRef: string, walletType: string, chainType: ChainType,
                                     address: string, nonce: string, signature: string)

  /** What connect takes from outside: the clock, a positive time to live, and two new ids. */
  datatype Draw = Draw(now: int, ttl: nat, bindingId: string, nonce: string)

  /** Whether a signature passes for this chain, address and message. */
  type SignatureCheck = (ChainType, string, string, string) -> bool

  /** The hash of a message and a lower-case address, as any function. */
  type Digest = (string, string) -> string

  /** `createDevWalletSignature`: no key goes into it. */
  function DevSignature(digest: Digest, message: string, address: string): string {
    "lael-dev:" + digest(message, Lower(address))
  }

  /** A wallet check that passes nothing. */
  const NO_WALLET: SignatureCheck := (chain, address, message, signature) => false

  /** `verifyWalletSignature`: the development signature passes on every chain, else the wallet's own check decides. */
  function CheckSignature(digest: Digest, wallet: SignatureCheck): SignatureCheck {
    (chain, address, message, signature) =>
      signature == DevSignature(digest, message, address) || wallet(chain, address, message, signature)
  }

  // ----- Addresses and messages

  /** EVM addresses are compared in lower case, others as given. */
  function Normalize(address: string, chain: ChainType): string {
    if chain == Evm then Lower(address) else address
  }

  function ChainName(chain: ChainType): string {
    match chain case Evm => "evm" case Solana => "solana" case Endless => "endless"
  }

  function MessageLines(owner: string, chain: ChainType, address: string, nonce: string): (lines: seq<string>) {
    ["Luffa Fabric Wallet Binding", "ownerRef=" + owner, "chainType=" + ChainName(chain),
     "address=" + Normalize(address, chain), "nonce=" + nonce]
  }

  /** `createWalletBindingMessage`. */
  function Message(owner: string, chain: ChainType, address: string, nonce: string): string {
    JoinLines(MessageLines(owner, chain, address, nonce))
  }

  /** For EVM two addresses are one exactly when they differ in letter case alone; elsewhere when they are equal. */
  lemma NormalizeDecides(a: string, b: string, chain: ChainType)
    ensures Normalize(a, chain) == Normalize(b, chain) <==> if chain == Evm then SameLetters(a, b) else a == b
    ensures if chain == Evm
            then SameLetters(Normalize(a, chain), a) && forall c | c in Normalize(a, chain) :: !('A' <= c <= 'Z')
            else Normalize(a, chain) == a
  {
    LowerDecides(a, b);
  }

  lemma ChainNames(a: ChainType, b: ChainType)
    ensures '\n' !in ChainName(a) && (ChainName(a) == ChainName(b) ==> a == b)
  {
    assert ChainName(a)[1] == ChainName(b)[1] ==> a == b;
  }

  lemma NormalizeKeepsLine(address: string, chain: ChainType)
    requires '\n' !in address
    ensures '\n' !in Normalize(address, chain)
  {
  }

  /** The lines tell the parts. */
  lemma LinesTell(o: string, c: ChainType, a: string, n: string, o': string, c': ChainType, a': string, n': string)
    requires MessageLines(o, c, a, n) == MessageLines(o', c', a', n')
    ensures o == o' && c == c' && Normalize(a, c) == Normalize(a', c') && n == n'
  {
    var l, l' := MessageLines(o, c, a, n), MessageLines(o', c', a', n');
    assert l[1] == l'[1] && l[2] == l'[2] && l[3] == l'[3] && l[4] == l'[4];
    DropHead("ownerRef=", o, o');
    DropHead("chainType=", ChainName(c), ChainName(c'));
    ChainNames(c, c');
    DropHead("address=", Normalize(a, c), Normalize(a', c'));
    DropHead("nonce=", n, n');
  }

  lemma OneLineEach(o: string, c: ChainType, a: string, n: string)
    requires '\n' !in o && '\n' !in a
    ensures forall i | 0 <= i < 4 :: '\n' !in MessageLines(o, c, a, n)[i]
  {
    ChainNames(c, c);
    NormalizeKeepsLine(a, c);
  }

  /** Among owners and addresses without line breaks a message tells its owner, chain, address and nonce. */
  lemma MessageInjective(o: string, c: ChainType, a: string, n: string, o': string, c': ChainType, a': string,
                         n': string)
    requires '\n' !in o && '\n' !in o' && '\n' !in a && '\n' !in a'
    ensures Message(o, c, a, n) == Message(o', c', a', n')
            <==> o == o' && c == c' && Normalize(a, c) == Normalize(a', c') && n == n'
  {
    OneLineEach(o, c, a, n);
    OneLineEach(o', c', a', n');
    if Message(o, c, a, n) == Message(o', c', a', n') {
      JoinTellsLines(MessageLines(o, c, a, n), MessageLines(o', c', a', n'));
      LinesTell(o, c, a, n, o', c', a', n');
    }
  }

  /** For one owner, chain and address, whatever is in them, messages are equal only for equal nonces. */
  lemma MessageTellsNonce(o: string, c: ChainType, a: string, n: string, n': string)
    requires Message(o, c, a, n) == Message(o, c, a, n')
    ensures n == n'
  {
    var l, l' := MessageLines(o, c, a, n), MessageLines(o, c, a, n');
    JoinTellsLast(l, l');
    DropHead("nonce=", n, n');
  }

  /** Whatever the other parts, a nonce without a line break is told by the last line of its message. */
  lemma LastLineTellsNonce(o: string, c: ChainType, a: string, n: string, o': string, c': ChainType, a': string,
                           n': string)
    requires '\n' !in n && '\n' !in n' && Message(o, c, a, n) == Message(o', c', a', n')
    ensures n == n'
  {
    var u := JoinedBefore(MessageLines(o, c, a, n));
    var u' := JoinedBefore(MessageLines(o', c', a', n'));
    SplitsLast('\n', u, "nonce=" + n, u', "nonce=" + n');
    DropHead("nonce=", n, n');
  }

  // ----- Lookups

  predicate HasKey(r: Row, owner: string, chain: ChainType, address: string) {
    r.ownerRef == owner && r.chainType == chain && r.address == address
  }

  function IndexOfKey(rows: seq<Row>, owner: string, chain: ChainType, address: string): (i: int)
    ensures -1 <= i < |rows|
    ensures i >= 0 ==> HasKey(rows[i], owner, chain, address)
    ensures i < 0 ==> forall j | 0 <= j < |rows| :: !HasKey(rows[j], owner, chain, address)
  {
    if rows == [] then -1 else
      var n := |rows| - 1;
      if HasKey(rows[n], owner, chain, address) then n else IndexOfKey(rows[..n], owner, chain, address)
  }

  function IndexOfId(rows: seq<Row>, id: string): (i: int)
    ensures -1 <= i < |rows|
    ensures i >= 0 ==> rows[i].bindingId == id
    ensures i < 0 ==> forall j | 0 <= j < |rows| :: rows[j].bindingId != id
  {
    if rows == [] then -1 else
      var n := |rows| - 1;
      if rows[n].bindingId == id then n else IndexOfId(rows[..n], id)
  }

  /** Verified rows come first, then later ones. */
  predicate Before(a: Row, b: Row) {
    (a.verified && !b.verified) || (a.verified == b.verified && a.createdAt > b.createdAt)
  }

  /** `findBindingOwner`: the first row for the address, whoever owns it. */
  function IndexOfAddress(rows: seq<Row>, chain: ChainType, address: string): (i: int)
    ensures -1 <= i < |rows|
    ensures i >= 0 ==> rows[i].chainType == chain && rows[i].address == address
    ensures i < 0 ==> forall j | 0 <= j < |rows| :: !(rows[j].chainType == chain && rows[j].address == address)
  {
    if rows == [] then -1 else
      var n := |rows| - 1;
      var best := IndexOfAddress(rows[..n], chain, address);
      if rows[n].chainType == chain && rows[n].address == address && (best < 0 || Before(rows[n], rows[best]))
      then n else best
  }

  // ----- The two calls

  function ConnectRow(rows: seq<Row>, i: ConnectInput, d: Draw): Row {
    var address := Normalize(i.address, i.chainType);
    var at := IndexOfKey(rows, i.ownerRef, i.chainType, address);
    Row(if at >= 0 then rows[at].bindingId else d.bindingId, i.ownerRef, i.walletType, i.chainType, address,
        "", d.nonce, d.now + d.ttl, false, d.now)
  }

  /** `connect`: a fresh nonce for the address, unless another owner holds it. */
  function Connect(rows: seq<Row>, i: ConnectInput, d: Draw): (seq<Row>, Result<Row>) {
    if i.ownerRef == "" || i.walletType == "" || i.address == "" then (rows, Err(MissingField)) else
      var address := Normalize(i.address, i.chainType);
      var holder := IndexOfAddress(rows, i.chainType, address);
      if holder >= 0 && rows[holder].ownerRef != i.ownerRef then (rows, Err(BoundToAnotherOwner)) else
        var row := ConnectRow(rows, i, d);
        var at := IndexOfKey(rows, i.ownerRef, i.chainType, address);
        if at >= 0 then (rows[at := row], Ok(row))
        else if IndexOfId(rows, row.bindingId) >= 0 then (rows, Err(IdTaken))
        else (rows + [row], Ok(row))
  }

  /** `findPendingBinding`: by id when one is given, otherwise by key. */
  function Pending(rows: seq<Row>, i: VerifyInput): int {
    if i.bindingId != "" then IndexOfId(rows, i.bindingId)
    else IndexOfKey(rows, i.ownerRef, i.chainType, Normalize(i.address, i.chainType))
  }

  /** Why `verify` refuses, in the order of its checks. */
  function VerifyError(rows: seq<Row>, i: VerifyInput, now: int, check: SignatureCheck): Option<WalletError> {
    var address := Normalize(i.address, i.chainType);
    var at := Pending(rows, i);
    if i.ownerRef == "" || i.walletType == "" || i.address == "" then Some(MissingField)
    else if i.signature == "" then Some(SignatureRequired)
    else if at < 0 then Some(NonceNotFound)
    else if !HasKey(rows[at], i.ownerRef, i.chainType, address) then Some(BindingMismatch)
    else if rows[at].verified then Some(NonceUsed)
    else if rows[at].nonce != i.nonce then Some(NonceMismatch)
    else if rows[at].expiresAt <= now then Some(NonceExpired)
    else if !check(i.chainType, address, Message(i.ownerRef, i.chainType, address, i.nonce), i.signature)
    then Some(SignatureInvalid)
    else None
  }

  function Accepted(row: Row, i: VerifyInput): Row {
    row.(walletType := i.walletType, signature := i.signature, verified := true)
  }

  function Verify(rows: seq<Row>, i: VerifyInput, now: int, check: SignatureCheck): (seq<Row>, Result<Row>) {
    var error := VerifyError(rows, i, now, check);
    if error.Some? then (rows, Err(error.value)) else
      var at := Pending(rows, i);
      (rows[at := Accepted(rows[at], i)], Ok(Accepted(rows[at], i)))
  }

  /** `hasVerifiedBinding`. */
  function HasVerified(rows: seq<Row>, owner: string, chain: ChainType, address: string): bool {
    exists i | 0 <= i < |rows| :: HasKey(rows[i], owner, chain, Normalize(address, chain)) && rows[i].verified
  }

  // ----- Runs

  /** An accepted verification, kept as history. */
  datatype Acceptance = Acceptance(row: Row, now: int)

  /** The table, and as history the nonces handed out and the verifications accepted. */
  datatype State = State(rows: seq<Row>, issued: seq<string>, accepted: seq<Acceptance>)

  const START := State([], [], [])

  datatype Event = ConnectCall(connect: ConnectInput, draw: Draw) | VerifyCall(verify: VerifyInput, now: int)

  function Step(s: State, e: Event, check: SignatureCheck): State {
    match e
    case ConnectCall(i, d) =>
      var (rows, r) := Connect(s.rows, i, d);
      if r.Ok? then State(rows, s.issued + [d.nonce], s.accepted) else s
    case VerifyCall(i, now) =>
      var (rows, r) := Verify(s.rows, i, now, check);
      if r.Ok? then State(rows, s.issued, s.accepted + [Acceptance(r.value, now)]) else s
  }

  /** A drawn nonce is one never handed out before. */
  predicate Draws(s: State, e: Event) {
    e.ConnectCall? ==> e.draw.nonce !in s.issued
  }

  predicate DrawsAll(s: State, events: seq<Event>, check: SignatureCheck)
    decreases |events|
  {
    events == [] || (Draws(s, events[0]) && DrawsAll(Step(s, events[0], check), events[1..], check))
  }

  function Run(s: State, events: seq<Event>, check: SignatureCheck): State
    decreases |events|
  {
    if events == [] then s else Run(Step(s, events[0], check), events[1..], check)
  }

  // ----- The invariant

  predicate Apart(a: Row, b: Row) {
    a.bindingId != b.bindingId && a.nonce != b.nonce && !(a.chainType == b.chainType && a.address == b.address)
  }

  /** One row, hence one owner, per chain and address; ids and nonces never repeat. */
  predicate OneRowPerAddress(rows: seq<Row>) {
    forall i, j | 0 <= i < j < |rows| :: Apart(rows[i], rows[j])
  }

  predicate NonceAccepted(accepted: seq<Acceptance>, nonce: string) {
    exists k | 0 <= k < |accepted| :: accepted[k].row.nonce == nonce
  }

  /** A verified row is one that was accepted as it stands; an unverified row's nonce never was. */
  predicate Honest(r: Row, accepted: seq<Acceptance>) {
    if r.verified then exists k | 0 <= k < |accepted| :: accepted[k].row == r
    else !NonceAccepted(accepted, r.nonce)
  }

  /** An acceptance was made before expiry, of the signature of the message with the row's own nonce. */
  predicate Genuine(a: Acceptance, check: SignatureCheck) {
    a.row.verified && a.now < a.row.expiresAt
    && check(a.row.chainType, a.row.address,
             Message(a.row.ownerRef, a.row.chainType, a.row.address, a.row.nonce), a.row.signature)
  }

  predicate AllHonest(s: State) {
    forall r | r in s.rows :: Honest(r, s.accepted) && r.nonce in s.issued
  }

  predicate AllGenuine(s: State, check: SignatureCheck) {
    forall k | 0 <= k < |s.accepted| :: Genuine(s.accepted[k], check) && s.accepted[k].row.nonce in s.issued
  }

  predicate AcceptedOnce(accepted: seq<Acceptance>) {
    forall j, k | 0 <= j < k < |accepted| :: accepted[j].row.nonce != accepted[k].row.nonce
  }

  predicate Invariant(s: State, check: SignatureCheck) {
    OneRowPerAddress(s.rows) && AllHonest(s) && AllGenuine(s, check) && AcceptedOnce(s.accepted)
  }

  lemma SameRow(rows: seq<Row>, i: nat, j: nat)
    requires OneRowPerAddress(rows) && i < |rows| && j < |rows| && !Apart(rows[i], rows[j])
    ensures i == j
  {
  }

  lemma ReplaceKeepsApart(rows: seq<Row>, at: nat, row: Row)
    requires OneRowPerAddress(rows) && at < |rows|
    requires row.bindingId == rows[at].bindingId && row.chainType == rows[at].chainType
             && row.address == rows[at].address
    requires forall i | 0 <= i < |rows| && i != at :: rows[i].nonce != row.nonce
    ensures OneRowPerAddress(rows[at := row])
  {
  }

  lemma ConnectKeeps(s: State, i: ConnectInput, d: Draw, check: SignatureCheck)
    requires Invariant(s, check) && d.nonce !in s.issued
    ensures Invariant(Step(s, ConnectCall(i, d), check), check)
  {
  }

  /** The row `verify` accepts: unverified before, with the input's key and nonce, in time, well signed. */
  lemma AcceptedRow(s: State, i: VerifyInput, now: int, check: SignatureCheck)
    requires Invariant(s, check) && VerifyError(s.rows, i, now, check).None?
    ensures var at := Pending(s.rows, i);
            && 0 <= at < |s.rows| && !s.rows[at].verified
            && !NonceAccepted(s.accepted, s.rows[at].nonce)
            && Genuine(Acceptance(Accepted(s.rows[at], i), now), check)
  {
  }

  lemma VerifyKeeps(s: State, i: VerifyInput, now: int, check: SignatureCheck)
    requires Invariant(s, check)
    ensures Invariant(Step(s, VerifyCall(i, now), check), check)
  {
    if VerifyError(s.rows, i, now, check).None? {
      AcceptedRow(s, i, now, check);
      var at := Pending(s.rows, i);
      var row := Accepted(s.rows[at], i);
      var s' := Step(s, VerifyCall(i, now), check);
      forall j | 0 <= j < |s.rows| && j != at
        ensures s.rows[j].nonce != row.nonce
      {
        assert if j < at then Apart(s.rows[j], s.rows[at]) else Apart(s.rows[at], s.rows[j]);
      }
      ReplaceKeepsApart(s.rows, at, row);
      VerifyHonest(s, s', at, row, now, check);
    }
  }

  lemma HonestStays(r: Row, accepted: seq<Acceptance>, a: Acceptance)
    requires Honest(r, accepted) && a.row.nonce != r.nonce
    ensures Honest(r, accepted + [a])
  {
    if r.verified {
      var k :| 0 <= k < |accepted| && accepted[k].row == r;
      assert (accepted + [a])[k].row == r;
    }
  }

  lemma VerifyHonest(s: State, s': State, at: nat, row: Row, now: int, check: SignatureCheck)
    requires Invariant(s, check) && at < |s.rows|
    requires row.verified && row.nonce == s.rows[at].nonce && !NonceAccepted(s.accepted, row.nonce)
    requires Genuine(Acceptance(row, now), check)
    requires s' == State(s.rows[at := row], s.issued, s.accepted + [Acceptance(row, now)])
    requires forall j | 0 <= j < |s.rows| && j != at :: s.rows[j].nonce != row.nonce
    ensures AllHonest(s') && AllGenuine(s', check) && AcceptedOnce(s'.accepted)
  {
    assert s'.accepted[|s.accepted|].row == row;
    forall j | 0 <= j < |s'.rows|
      ensures Honest(s'.rows[j], s'.accepted) && s'.rows[j].nonce in s'.issued
    {
      assert Honest(s.rows[j], s.accepted) && s.rows[j].nonce in s.issued;
      if j != at {
        HonestStays(s.rows[j], s.accepted, Acceptance(row, now));
      }
    }
    forall k | 0 <= k < |s'.accepted|
      ensures Genuine(s'.accepted[k], check) && s'.accepted[k].row.nonce in s'.issued
    {
      assert k < |s.accepted| ==> Genuine(s.accepted[k], check);
    }
  }

  lemma {:induction false} RunKeeps(s: State, events: seq<Event>, check: SignatureCheck)
    requires Invariant(s, check) && DrawsAll(s, events, check)
    ensures Invariant(Run(s, events, check), check)
    decreases |events|
  {
    if events == [] {
    } else {
      match events[0] {
        case ConnectCall(i, d) => ConnectKeeps(s, i, d, check);
        case VerifyCall(i, now) => VerifyKeeps(s, i, now, check);
      }
      RunKeeps(Step(s, events[0], check), events[1..], check);
    }
  }

  // ----- What the protocol promises

  /**
    * In every reachable state two rows never share a chain and address, and a binding that counts
    * as verified was accepted before expiry on a signature over its current nonce.
    */
  lemma VerifiedMeansSigned(events: seq<Event>, check: SignatureCheck, owner: string, chain: ChainType, address: string)
    requires DrawsAll(START, events, check)
    ensures var s := Run(START, events, check);
            && OneRowPerAddress(s.rows)
            && (HasVerified(s.rows, owner, chain, address) ==>
                  exists k | 0 <= k < |s.accepted| ::
                    && Genuine(s.accepted[k], check) && s.accepted[k].row in s.rows
                    && HasKey(s.accepted[k].row, owner, chain, Normalize(address, chain)))
  {
    RunKeeps(START, events, check);
    var s := Run(START, events, check);
    if HasVerified(s.rows, owner, chain, address) {
      var i :| 0 <= i < |s.rows| && HasKey(s.rows[i], owner, chain, Normalize(address, chain)) && s.rows[i].verified;
      assert Honest(s.rows[i], s.accepted);
      var k :| 0 <= k < |s.accepted| && s.accepted[k].row == s.rows[i];
      assert Genuine(s.accepted[k], check);
    }
  }

  /**
    * With the service's own check: behind every verified binding of a reachable state stands, made
    * before expiry over its current nonce, a signature the wallet's check passes or the development
    * signature, which needs no wallet.
    */
  lemma VerifiedByWalletOrDevSignature(events: seq<Event>, digest: Digest, wallet: SignatureCheck,
                                       owner: string, chain: ChainType, address: string) returns (a: Acceptance)
    requires DrawsAll(START, events, CheckSignature(digest, wallet))
    requires HasVerified(Run(START, events, CheckSignature(digest, wallet)).rows, owner, chain, address)
    ensures a.row in Run(START, events, CheckSignature(digest, wallet)).rows && a.now < a.row.expiresAt
    ensures HasKey(a.row, owner, chain, Normalize(address, chain))
    ensures var message := Message(owner, chain, a.row.address, a.row.nonce);
            || wallet(chain, a.row.address, message, a.row.signature)
            || a.row.signature == DevSignature(digest, message, a.row.address)
  {
    var check := CheckSignature(digest, wallet);
    VerifiedMeansSigned(events, check, owner, chain, address);
    var s := Run(START, events, check);
    var k :| 0 <= k < |s.accepted| && Genuine(s.accepted[k], check) && s.accepted[k].row in s.rows
             && HasKey(s.accepted[k].row, owner, chain, Normalize(address, chain));
    a := s.accepted[k];
  }

  /**
    * In every reachable state one address, whatever its letter case on an EVM chain, counts as verified
    * for one owner at most.
    */
  lemma OneOwner(events: seq<Event>, check: SignatureCheck, a: string, b: string, chain: ChainType, x: string,
                 y: string)
    requires DrawsAll(START, events, check) && Normalize(x, chain) == Normalize(y, chain)
    requires HasVerified(Run(START, events, check).rows, a, chain, x)
    requires HasVerified(Run(START, events, check).rows, b, chain, y)
    ensures a == b
  {
    RunKeeps(START, events, check);
    var rows := Run(START, events, check).rows;
    var i :| 0 <= i < |rows| && HasKey(rows[i], a, chain, Normalize(x, chain)) && rows[i].verified;
    var j :| 0 <= j < |rows| && HasKey(rows[j], b, chain, Normalize(y, chain)) && rows[j].verified;
    assert !Apart(rows[i], rows[j]) && !Apart(rows[j], rows[i]);
    SameRow(rows, i, j);
  }

  lemma {:induction false} RunExtends(s: State, events: seq<Event>, check: SignatureCheck)
    ensures s.accepted <= Run(s, events, check).accepted
    decreases |events|
  {
    if events == [] {
    } else {
      RunExtends(Step(s, events[0], check), events[1..], check);
    }
  }

  /** A nonce accepted once is never accepted again, however the service is used in between. */
  lemma NeverAcceptedTwice(s: State, events: seq<Event>, check: SignatureCheck, i: VerifyInput, now: int)
    requires Invariant(s, check) && DrawsAll(s, events, check) && NonceAccepted(s.accepted, i.nonce)
    ensures Verify(Run(s, events, check).rows, i, now, check).1.Err?
  {
    RunKeeps(s, events, check);
    RunExtends(s, events, check);
    var later := Run(s, events, check);
    var k :| 0 <= k < |s.accepted| && s.accepted[k].row.nonce == i.nonce;
    assert later.accepted[k] == s.accepted[k];
    if VerifyError(later.rows, i, now, check).None? {
      AcceptedRow(later, i, now, check);
    }
  }

  /** The check passes a signature for one message at most, whatever chain and address it is tried for. */
  ghost predicate OneMessageEach(check: SignatureCheck) {
    forall c, a, m, c', a', m', signature {:trigger check(c, a, m, signature), check(c', a', m', signature)} ::
      check(c, a, m, signature) && check(c', a', m', signature) ==> m == m'
  }

  /** No two inputs of the digest collide. */
  ghost predicate CollisionFree(digest: Digest) {
    forall m, a, m', a' {:trigger digest(m, a), digest(m', a')} ::
      digest(m, a) == digest(m', a') ==> m == m' && a == a'
  }

  /** The wallets' own checks pass no development signature. */
  ghost predicate PassesNoDevSignature(wallet: SignatureCheck) {
    forall c, a, m, signature {:trigger wallet(c, a, m, signature)} ::
      wallet(c, a, m, signature) ==> !("lael-dev:" <= signature)
  }

  /** The service's own check is such a one, if the wallets' checks are and the digest has no collisions. */
  lemma ServiceCheckOneMessage(digest: Digest, wallet: SignatureCheck)
    requires CollisionFree(digest) && OneMessageEach(wallet) && PassesNoDevSignature(wallet)
    ensures OneMessageEach(CheckSignature(digest, wallet))
  {
    var check := CheckSignature(digest, wallet);
    forall c, a, m, c', a', m', signature | check(c, a, m, signature) && check(c', a', m', signature)
      ensures m == m'
    {
      if wallet(c, a, m, signature) || wallet(c', a', m', signature) {
        assert !("lael-dev:" <= signature);
        assert "lael-dev:" <= DevSignature(digest, m, a) && "lael-dev:" <= DevSignature(digest, m', a');
        assert wallet(c, a, m, signature) && wallet(c', a', m', signature);
      } else {
        DropHead("lael-dev:", digest(m, Lower(a)), digest(m', Lower(a')));
      }
    }
  }

  /** Drawn nonces have no line break. */
  predicate OneLineNonces(nonces: seq<string>) {
    forall n | n in nonces :: '\n' !in n
  }

  predicate OneLineDraws(events: seq<Event>) {
    forall i | 0 <= i < |events| && events[i].ConnectCall? :: '\n' !in events[i].draw.nonce
  }

  lemma {:induction false} IssuedInOneLine(s: State, events: seq<Event>, check: SignatureCheck)
    requires OneLineNonces(s.issued) && OneLineDraws(events)
    ensures OneLineNonces(Run(s, events, check).issued)
    decreases |events|
  {
    if events == [] {
    } else {
      assert forall i | 0 <= i < |events| - 1 :: events[1..][i] == events[i + 1];
      IssuedInOneLine(Step(s, events[0], check), events[1..], check);
    }
  }

  /** Two genuine acceptances of one signature are of one nonce. */
  lemma OneSignatureOneNonce(a: Acceptance, b: Acceptance, check: SignatureCheck)
    requires Genuine(a, check) && Genuine(b, check) && OneMessageEach(check)
    requires '\n' !in a.row.nonce && '\n' !in b.row.nonce && a.row.signature == b.row.signature
    ensures a.row.nonce == b.row.nonce
  {
    LastLineTellsNonce(a.row.ownerRef, a.row.chainType, a.row.address, a.row.nonce,
                       b.row.ownerRef, b.row.chainType, b.row.address, b.row.nonce);
  }

  /** Over every run no signature is accepted twice, neither for one binding nor for two. */
  lemma SignatureOnce(events: seq<Event>, check: SignatureCheck)
    requires DrawsAll(START, events, check) && OneLineDraws(events) && OneMessageEach(check)
    ensures var accepted := Run(START, events, check).accepted;
            forall j, k | 0 <= j < k < |accepted| :: accepted[j].row.signature != accepted[k].row.signature
  {
    RunKeeps(START, events, check);
    IssuedInOneLine(START, events, check);
    var s := Run(START, events, check);
    forall j, k | 0 <= j < k < |s.accepted|
      ensures s.accepted[j].row.signature != s.accepted[k].row.signature
    {
      assert Genuine(s.accepted[j], check) && Genuine(s.accepted[k], check);
      if s.accepted[j].row.signature == s.accepted[k].row.signature {
        OneSignatureOneNonce(s.accepted[j], s.accepted[k], check);
      }
    }
  }

  /**
    * A signature accepted before is refused in every later state, whatever nonce it is sent with: so
    * also for the new nonce after the owner has connected again.
    */
  lemma OldSignatureRefused(events: seq<Event>, check: SignatureCheck, k: nat, v: VerifyInput, now: int)
    requires DrawsAll(START, events, check) && OneLineDraws(events) && OneMessageEach(check)
    requires k < |Run(START, events, check).accepted|
    requires v.signature == Run(START, events, check).accepted[k].row.signature
    ensures Verify(Run(START, events, check).rows, v, now, check).1.Err?
  {
    RunKeeps(START, events, check);
    IssuedInOneLine(START, events, check);
    var s := Run(START, events, check);
    assert Genuine(s.accepted[k], check);
    if VerifyError(s.rows, v, now, check).None? {
      AcceptedRow(s, v, now, check);
      var at := Pending(s.rows, v);
      var a := Acceptance(Accepted(s.rows[at], v), now);
      assert s.rows[at] in s.rows;
      OneSignatureOneNonce(s.accepted[k], a, check);
    }
  }

  /** Reconnecting clears verification: until its new nonce is accepted the binding counts for nothing. */
  lemma ReconnectClears(s: State, i: ConnectInput, d: Draw, check: SignatureCheck)
    requires Invariant(s, check) && d.nonce !in s.issued && Connect(s.rows, i, d).1.Ok?
    ensures !HasVerified(Step(s, ConnectCall(i, d), check).rows, i.ownerRef, i.chainType, i.address)
  {
  }

  predicate HeldByOther(rows: seq<Row>, i: ConnectInput) {
    exists r | r in rows :: r.chainType == i.chainType && r.address == Normalize(i.address, i.chainType)
                            && r.ownerRef != i.ownerRef
  }

  predicate HeldByOwner(rows: seq<Row>, i: ConnectInput) {
    exists r | r in rows :: HasKey(r, i.ownerRef, i.chainType, Normalize(i.address, i.chainType))
  }

  /** Connecting succeeds exactly for a complete request whose address no other owner holds and whose id is free. */
  lemma ConnectIff(rows: seq<Row>, i: ConnectInput, d: Draw)
    requires OneRowPerAddress(rows)
    ensures Connect(rows, i, d).1.Ok? <==>
              && i.ownerRef != "" && i.walletType != "" && i.address != "" && !HeldByOther(rows, i)
              && (HeldByOwner(rows, i) || forall r | r in rows :: r.bindingId != d.bindingId)
    ensures Connect(rows, i, d).1.Err? ==> Connect(rows, i, d).0 == rows
    ensures Connect(rows, i, d).1.Ok? ==>
              var (rows', row) := (Connect(rows, i, d).0, Connect(rows, i, d).1.value);
              && row == Row(row.bindingId, i.ownerRef, i.walletType, i.chainType, Normalize(i.address, i.chainType),
                            "", d.nonce, d.now + d.ttl, false, d.now)
              && if HeldByOwner(rows, i)
                 then exists at | 0 <= at < |rows| ::
                        && HasKey(rows[at], i.ownerRef, i.chainType, Normalize(i.address, i.chainType))
                        && row.bindingId == rows[at].bindingId && rows' == rows[at := row]
                 else row.bindingId == d.bindingId && rows' == rows + [row]
  {
    var address := Normalize(i.address, i.chainType);
    var holder := IndexOfAddress(rows, i.chainType, address);
    forall r | r in rows && r.chainType == i.chainType && r.address == address
      ensures holder >= 0 && r == rows[holder]
    {
      var j :| 0 <= j < |rows| && rows[j] == r;
      assert !Apart(rows[j], rows[holder]);
      SameRow(rows, j, holder);
    }
  }

  /** Where the row of a successful connect stands. */
  function ConnectedAt(s: State, i: ConnectInput): nat {
    var at := IndexOfKey(s.rows, i.ownerRef, i.chainType, Normalize(i.address, i.chainType));
    if at >= 0 then at else |s.rows|
  }

  /** The row a successful connect stores. */
  lemma ConnectStores(s: State, i: ConnectInput, d: Draw)
    requires Connect(s.rows, i, d).1.Ok?
    ensures var rows, at := Connect(s.rows, i, d).0, ConnectedAt(s, i);
            && at < |rows| && rows[at] == ConnectRow(s.rows, i, d) && Connect(s.rows, i, d).1.value == rows[at]
  {
  }

  /** The row a verification is about: of its key, with its nonce, and with its id when one is given. */
  predicate Answers(r: Row, v: VerifyInput) {
    && r.ownerRef == v.ownerRef && r.chainType == v.chainType && r.address == Normalize(v.address, v.chainType)
    && r.nonce == v.nonce && (v.bindingId == "" || r.bindingId == v.bindingId)
  }

  /** That row is the one found, also when the id is left out. */
  lemma AnsweredIsPending(rows: seq<Row>, at: nat, v: VerifyInput)
    requires OneRowPerAddress(rows) && at < |rows| && Answers(rows[at], v)
    ensures Pending(rows, v) == at
  {
    var found := Pending(rows, v);
    assert 0 <= found < |rows|;
    assert !Apart(rows[found], rows[at]);
    SameRow(rows, found, at);
  }

  /** For a row that is found and unused, only the time and the signature are left to decide. */
  lemma VerifiesFound(rows: seq<Row>, at: nat, v: VerifyInput, now: int, check: SignatureCheck)
    requires at < |rows| && Pending(rows, v) == at
    requires HasKey(rows[at], v.ownerRef, v.chainType, Normalize(v.address, v.chainType))
    requires v.ownerRef != "" && v.walletType != "" && v.address != "" && v.signature != ""
    requires !rows[at].verified && rows[at].nonce == v.nonce
    ensures var address := Normalize(v.address, v.chainType);
            Verify(rows, v, now, check).1.Ok?
            <==> now < rows[at].expiresAt
                 && check(v.chainType, address, Message(v.ownerRef, v.chainType, address, v.nonce), v.signature)
  {
  }

  /** The input verifies what connect handed out: its ids and key, and the drawn nonce. */
  predicate AnswersConnect(v: VerifyInput, i: ConnectInput, d: Draw, row: Row) {
    && v.bindingId == row.bindingId && v.ownerRef == i.ownerRef && v.chainType == i.chainType
    && v.address == i.address && v.nonce == d.nonce && v.walletType != "" && v.signature != ""
  }

  /** What connect hands out, its owner can verify within the time to live, and with a good signature. */
  lemma ConnectThenVerify(s: State, i: ConnectInput, d: Draw, check: SignatureCheck, v: VerifyInput, now: int)
    requires Invariant(s, check) && d.nonce !in s.issued && Connect(s.rows, i, d).1.Ok?
    requires AnswersConnect(v, i, d, Connect(s.rows, i, d).1.value)
    ensures var rows := Connect(s.rows, i, d).0;
            var address := Normalize(i.address, i.chainType);
            Verify(rows, v, now, check).1.Ok?
            <==> now < d.now + d.ttl
                 && check(i.chainType, address, Message(i.ownerRef, i.chainType, address, d.nonce), v.signature)
  {
    ConnectKeeps(s, i, d, check);
    ConnectStores(s, i, d);
    var rows, at := Connect(s.rows, i, d).0, ConnectedAt(s, i);
    AnsweredIsPending(rows, at, v);
    VerifiesFound(rows, at, v, now, check);
  }

  /**
    * The development signature needs no wallet: even with a wallet check that passes nothing, it
    * verifies every nonce that connect hands out, until that expires.
    */
  lemma DevSignatureVerifies(s: State, i: ConnectInput, d: Draw, digest: Digest, v: VerifyInput, now: int)
    requires Invariant(s, CheckSignature(digest, NO_WALLET)) && d.nonce !in s.issued && Connect(s.rows, i, d).1.Ok?
    requires AnswersConnect(v, i, d, Connect(s.rows, i, d).1.value)
    ensures var address := Normalize(i.address, i.chainType);
            Verify(Connect(s.rows, i, d).0, v, now, CheckSignature(digest, NO_WALLET)).1.Ok?
            <==> now < d.now + d.ttl
                 && v.signature == DevSignature(digest, Message(i.ownerRef, i.chainType, address, d.nonce), address)
  {
    ConnectThenVerify(s, i, d, CheckSignature(digest, NO_WALLET), v, now);
  }

  /**
    * A verification succeeds exactly when it is complete and answers a row that is not verified and
    * not expired with a signature that passes for its message; that row alone changes.
    */
  lemma VerifyIff(rows: seq<Row>, v: VerifyInput, now: int, check: SignatureCheck)
    requires OneRowPerAddress(rows)
    ensures var (rows', o) := Verify(rows, v, now, check);
            && (o.Ok? <==>
                  && v.ownerRef != "" && v.walletType != "" && v.address != "" && v.signature != ""
                  && exists at | 0 <= at < |rows| ::
                       && Answers(rows[at], v) && !rows[at].verified && now < rows[at].expiresAt
                       && check(v.chainType, rows[at].address,
                                Message(v.ownerRef, v.chainType, rows[at].address, v.nonce), v.signature))
            && (o.Err? ==> rows' == rows)
            && (o.Ok? ==>
                  exists at | 0 <= at < |rows| ::
                    && Answers(rows[at], v)
                    && o.value == rows[at].(walletType := v.walletType, signature := v.signature, verified := true)
                    && rows' == rows[at := o.value])
            && (o.Ok? ==> HasVerified(rows', v.ownerRef, v.chainType, v.address))
  {
    forall at | 0 <= at < |rows| && Answers(rows[at], v)
      ensures Pending(rows, v) == at
    {
      AnsweredIsPending(rows, at, v);
    }
    var at := Pending(rows, v);
    if VerifyError(rows, v, now, check).None? {
      assert Answers(rows[at], v);
      assert rows[at := Accepted(rows[at], v)][at].verified;
    }
  }

  // ----- The service

  class WalletService {
    var rows: seq<Row>
    ghost var issued: seq<string>
    ghost var accepted: seq<Acceptance>

    ghost function View(): State
      reads this
    {
      State(rows, issued, accepted)
    }

    constructor ()
      ensures View() == START
    {
      rows, issued, accepted := [], [], [];
    }

    /** `connect`. */
    method ConnectWallet(i: ConnectInput, d: Draw, ghost check: SignatureCheck) returns (r: Result<Row>)
      modifies this
      ensures r == Connect(old(rows), i, d).1
      ensures View() == Step(old(View()), ConnectCall(i, d), check)
      ensures old(Invariant(View(), check)) && d.nonce !in old(issued) ==> Invariant(View(), check)
    {
      if Invariant(View(), check) && d.nonce !in issued {
        ConnectKeeps(View(), i, d, check);
      }
      if i.ownerRef == "" || i.walletType == "" || i.address == "" {
        return Err(MissingField);
      }
      var address := Normalize(i.address, i.chainType);
      var holder := IndexOfAddress(rows, i.chainType, address);
      if holder >= 0 && rows[holder].ownerRef != i.ownerRef {
        return Err(BoundToAnotherOwner);
      }
      var existing := IndexOfKey(rows, i.ownerRef, i.chainType, address);
      var bindingId := if existing >= 0 then rows[existing].bindingId else d.bindingId;
      var row := Row(bindingId, i.ownerRef, i.walletType, i.chainType, address, "", d.nonce, d.now + d.ttl, false,
                     d.now);
      if existing >= 0 {
        rows := rows[existing := row];
      } else {
        if IndexOfId(rows, bindingId) >= 0 {
          return Err(IdTaken);
        }
        rows := rows + [row];
      }
      issued := issued + [d.nonce];
      r := Ok(row);
    }

    /** `verify`. */
    method VerifyWallet(i: VerifyInput, now: int, check: SignatureCheck) returns (r: Result<Row>)
      modifies this
      ensures r == Verify(old(rows), i, now, check).1
      ensures View() == Step(old(View()), VerifyCall(i, now), check)
      ensures old(Invariant(View(), check)) ==> Invariant(View(), check)
    {
      if Invariant(View(), check) {
        VerifyKeeps(View(), i, now, check);
      }
      if i.ownerRef == "" || i.walletType == "" || i.address == "" {
        return Err(MissingField);
      }
      if i.signature == "" {
        return Err(SignatureRequired);
      }
      var address := Normalize(i.address, i.chainType);
      var at := Pending(rows, i);
      if at < 0 {
        return Err(NonceNotFound);
      }
      var existing := rows[at];
      if existing.ownerRef != i.ownerRef || existing.chainType != i.chainType || existing.address != address {
        return Err(BindingMismatch);
      }
      if existing.verified {
        return Err(NonceUsed);
      }
      if existing.nonce != i.nonce {
        return Err(NonceMismatch);
      }
      if existing.expiresAt <= now {
        return Err(NonceExpired);
      }
      var message := Message(i.ownerRef, i.chainType, address, i.nonce);
      if !check(i.chainType, address, message, i.signature) {
        return Err(SignatureInvalid);
      }
      var row := existing.(walletType := i.walletType, signature := i.signature, verified := true);
      rows := rows[at := row];
      accepted := accepted + [Acceptance(row, now)];
      r := Ok(row);
    }
  }
}
