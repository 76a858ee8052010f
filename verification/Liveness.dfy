/** Progress: whatever the faulty members have done so far, three blocks of transactions of the honest members complete
    a milestone. */
module Liveness {
  import opened ByteStrings
  import opened Sets
  import opened Codec
  import opened Committees
  import opened AppData
  import opened Parents
  import opened Blocks
  import opened Chains
  import opened Broadcasts

  /** The honest members, how they sign, and the blocks they propose. */
  datatype Team = Team(w: World, c: Committee, honest: set<Byte32>, sign: Byte32 -> seq<byte> -> seq<byte>,
                       proposal: Byte32 -> Byte32)

  /** Their signatures have the right size and verify. */
  ghost predicate SignsRight(t: Team) {
    forall p, m | p in t.honest :: |t.sign(p)(m)| == SIGNATURE_SIZE && t.w.verify(p, m, t.sign(p)(m))
  }

  function Encoded(t: Team, p: Byte32, tx: Tx): seq<byte> {
    MarshalTx(p, t.sign(p), tx)
  }

  ghost predicate IsProposal(t: Team, index: uint32, raw: seq<byte>) {
    exists p :: p in t.honest && raw == Encoded(t, p, Parent(index, t.proposal(p)))
  }

  /** A proof of the block that `p` proposed. */
  ghost predicate IsProofOf(t: Team, a: App, p: Byte32, raw: seq<byte>) {
    p in t.honest && p in a.parentByIssuer &&
      exists q :: q in t.honest && raw == Encoded(t, q, Proof(a.state.milestoneIndex, a.parentByIssuer[p]))
  }

  ghost predicate IsProof(t: Team, a: App, raw: seq<byte>) {
    exists p :: IsProofOf(t, a, p, raw)
  }

  function OwnSignature(t: Team, p: Byte32, e: Essence): Tx {
    PartialSignature(t.sign(p)(t.w.essenceBytes(e)))
  }

  ghost predicate IsSignature(t: Team, e: Essence, raw: seq<byte>) {
    exists p :: p in t.honest && raw == Encoded(t, p, OwnSignature(t, p, e))
  }

  // ----- delivering -----

  /** An encoded transaction of an honest member is applied. */
  lemma DeliverEncoded(t: Team, a: App, p: Byte32, tx: Tx)
    requires SignsRight(t) && p in t.honest && p in t.c.members(a.state.milestoneIndex)
    requires tx.PartialSignature? ==> |tx.signature| == SIGNATURE_SIZE
    ensures Deliver(t.w, t.c, a, Encoded(t, p, tx)).1 ==
      match Apply(t.w, a, p, tx) case Done(a') => a' case _ => a
  {
    hide MarshalTx, UnmarshalTx, Apply;
    TxRoundTrip(t.c.members(a.state.milestoneIndex), t.w.verify, p, t.sign(p), tx);
    SizeBound(p, t.sign(p), tx);
  }

  lemma {:induction false} DeliverConcat(w: World, c: Committee, a: App, x: seq<seq<byte>>, y: seq<seq<byte>>)
    ensures DeliverAll(w, c, a, x + y) == DeliverAll(w, c, DeliverAll(w, c, a, x), y)
  {
    hide Deliver;
    if y == [] {
      assert x + y == x;
    } else {
      DeliverConcat(w, c, a, x, y[..|y| - 1]);
      assert (x + y)[..|x + y| - 1] == x + y[..|y| - 1];
    }
  }

  lemma DeliverOne(w: World, c: Committee, a: App, x: seq<seq<byte>>, raw: seq<byte>)
    ensures DeliverAll(w, c, a, x + [raw]) == Deliver(w, c, DeliverAll(w, c, a, x), raw).1
  {
    hide Deliver;
    assert (x + [raw])[..|x|] == x;
  }

  /** What has been recorded stays recorded. */
  ghost predicate Extended(a: App, a': App) {
    && Grows(a, a')
    && (forall b :: Count(a, b) <= Count(a', b) && ProofIssuers(a, b) <= ProofIssuers(a', b))
    && a.signaturesByIssuer.Keys <= a'.signaturesByIssuer.Keys
  }

  lemma ApplyExtends(w: World, a: App, issuer: Byte32, tx: Tx)
    requires Apply(w, a, issuer, tx).Done?
    ensures Extended(a, Apply(w, a, issuer, tx).app)
  {
  }

  lemma ExtendedTwice(a: App, a': App, a'': App)
    requires Extended(a, a') && Extended(a', a'')
    ensures Extended(a, a'')
  {
  }

  // ----- proposals -----

  lemma ProposeOne(t: Team, a: App, p: Byte32)
    requires SignsRight(t) && p in t.honest && p in t.c.members(a.state.milestoneIndex) && a.milestone.None?
    ensures var a' := Deliver(t.w, t.c, a, Encoded(t, p, Parent(a.state.milestoneIndex, t.proposal(p)))).1;
      Extended(a, a') && p in a'.parentByIssuer
  {
    hide Deliver, Encoded;
    var tx := Parent(a.state.milestoneIndex, t.proposal(p));
    DeliverEncoded(t, a, p, tx);
    if Apply(t.w, a, p, tx).Done? {
      ApplyExtends(t.w, a, p, tx);
    }
  }

  lemma {:induction false} ProposeAll(t: Team, a: App, s: set<Byte32>) returns (txs: seq<seq<byte>>)
    requires SignsRight(t) && s <= t.honest && s <= t.c.members(a.state.milestoneIndex) && a.milestone.None?
    ensures forall raw | raw in txs :: IsProposal(t, a.state.milestoneIndex, raw)
    ensures var a' := DeliverAll(t.w, t.c, a, txs); Extended(a, a') && s <= a'.parentByIssuer.Keys
  {
    hide Deliver, Encoded, Extended, SignsRight;
    ExtendedItself(a);
    txs := [];
    if s != {} {
      var p :| p in s;
      var before := ProposeAll(t, a, s - {p});
      var a' := DeliverAll(t.w, t.c, a, before);
      ExtendedFields(a, a');
      var raw := Encoded(t, p, Parent(a.state.milestoneIndex, t.proposal(p)));
      ProposeOne(t, a', p);
      DeliverOne(t.w, t.c, a, before, raw);
      txs := before + [raw];
      ExtendedFields(a', DeliverAll(t.w, t.c, a, txs));
      ExtendedTwice(a, a', DeliverAll(t.w, t.c, a, txs));
    }
  }

  lemma ExtendedItself(a: App)
    ensures Extended(a, a)
  {
  }

  lemma ExtendedFields(a: App, a': App)
    requires Extended(a, a')
    ensures a'.state == a.state && a'.milestone == a.milestone && a.parentByIssuer.Keys <= a'.parentByIssuer.Keys
    ensures forall p | p in a.parentByIssuer :: p in a'.parentByIssuer && a'.parentByIssuer[p] == a.parentByIssuer[p]
    ensures forall b :: Count(a, b) <= Count(a', b) && ProofIssuers(a, b) <= ProofIssuers(a', b)
    ensures a.signaturesByIssuer.Keys <= a'.signaturesByIssuer.Keys
  {
  }

  // ----- proofs -----

  lemma ProveOne(t: Team, a: App, q: Byte32, b: Byte32)
    requires SignsRight(t) && q in t.honest && q in t.c.members(a.state.milestoneIndex)
    requires a.milestone.None? && Count(a, b) >= 1
    ensures var a' := Deliver(t.w, t.c, a, Encoded(t, q, Proof(a.state.milestoneIndex, b))).1;
      Extended(a, a') && q in ProofIssuers(a', b)
  {
    hide Deliver, Encoded;
    var tx := Proof(a.state.milestoneIndex, b);
    DeliverEncoded(t, a, q, tx);
    if Apply(t.w, a, q, tx).Done? {
      ApplyExtends(t.w, a, q, tx);
    }
  }

  /** The members of `s` prove the block that `p` proposed. */
  lemma {:induction false} ProveBlock(t: Team, a: App, p: Byte32, s: set<Byte32>) returns (txs: seq<seq<byte>>)
    requires SignsRight(t) && s <= t.honest && s <= t.c.members(a.state.milestoneIndex) && a.milestone.None?
    requires p in t.honest && p in a.parentByIssuer && Count(a, a.parentByIssuer[p]) >= 1
    ensures forall raw | raw in txs :: IsProofOf(t, a, p, raw)
    ensures var a' := DeliverAll(t.w, t.c, a, txs); Extended(a, a') && s <= ProofIssuers(a', a.parentByIssuer[p])
  {
    hide Deliver, Encoded, Extended, SignsRight;
    ExtendedItself(a);
    txs := [];
    if s != {} {
      var b, q := a.parentByIssuer[p], Pick(s);
      var before := ProveBlock(t, a, p, s - {q});
      var a' := DeliverAll(t.w, t.c, a, before);
      ExtendedFields(a, a');
      var raw := Encoded(t, q, Proof(a.state.milestoneIndex, b));
      ProveOne(t, a', q, b);
      DeliverOne(t.w, t.c, a, before, raw);
      txs := before + [raw];
      ExtendedFields(a', DeliverAll(t.w, t.c, a, txs));
      ExtendedTwice(a, a', DeliverAll(t.w, t.c, a, txs));
    }
  }

  ghost function Pick(s: set<Byte32>): (x: Byte32)
    requires s != {}
    ensures x in s
  {
    var x :| x in s;
    x
  }

  /** All honest members prove the blocks that the members of `s` proposed. */
  lemma {:induction false} ProveAll(t: Team, a: App, s: set<Byte32>) returns (txs: seq<seq<byte>>)
    requires SignsRight(t) && t.honest <= t.c.members(a.state.milestoneIndex) && a.milestone.None?
    requires s <= t.honest && s <= a.parentByIssuer.Keys && Counted(t.c, a)
    ensures forall raw | raw in txs :: IsProof(t, a, raw)
    ensures var a' := DeliverAll(t.w, t.c, a, txs);
      Extended(a, a') && forall p | p in s :: t.honest <= ProofIssuers(a', a.parentByIssuer[p])
  {
    hide Deliver, Encoded, Extended, SignsRight, Counted;
    ExtendedItself(a);
    txs := [];
    if s != {} {
      var p := Pick(s);
      var before := ProveAll(t, a, s - {p});
      var a' := DeliverAll(t.w, t.c, a, before);
      ExtendedFields(a, a');
      ProposedCount(t.c, a, p);
      var more := ProveBlock(t, a', p, t.honest);
      forall raw | raw in more ensures IsProof(t, a, raw) {
        SameProof(t, a, a', p, raw);
      }
      DeliverConcat(t.w, t.c, a, before, more);
      txs := before + more;
      ExtendedFields(a', DeliverAll(t.w, t.c, a, txs));
      ExtendedTwice(a, a', DeliverAll(t.w, t.c, a, txs));
    }
  }

  lemma ProposedCount(c: Committee, a: App, p: Byte32)
    requires Counted(c, a) && p in a.parentByIssuer
    ensures Count(a, a.parentByIssuer[p]) >= 1
  {
    assert p in IssuersOf(a, {a.parentByIssuer[p]});
  }

  lemma SameProof(t: Team, a: App, a': App, p: Byte32, raw: seq<byte>)
    requires IsProofOf(t, a', p, raw) && Extended(a, a') && p in a.parentByIssuer
    ensures IsProof(t, a, raw)
  {
    assert IsProofOf(t, a, p, raw);
  }

  // ----- signatures -----

  lemma SignOne(t: Team, a: App, p: Byte32)
    requires SignsRight(t) && p in t.honest && p in t.c.members(a.state.milestoneIndex) && a.milestone.Some?
    ensures var a' := Deliver(t.w, t.c, a, Encoded(t, p, OwnSignature(t, p, a.milestone.value.essence))).1;
      Extended(a, a') && p in a'.signaturesByIssuer
  {
    hide Deliver, Encoded;
    var tx := OwnSignature(t, p, a.milestone.value.essence);
    DeliverEncoded(t, a, p, tx);
    if Apply(t.w, a, p, tx).Done? {
      ApplyExtends(t.w, a, p, tx);
    }
  }

  lemma {:induction false} SignAll(t: Team, a: App, s: set<Byte32>) returns (txs: seq<seq<byte>>)
    requires SignsRight(t) && s <= t.honest && s <= t.c.members(a.state.milestoneIndex) && a.milestone.Some?
    ensures forall raw | raw in txs :: IsSignature(t, a.milestone.value.essence, raw)
    ensures var a' := DeliverAll(t.w, t.c, a, txs); Extended(a, a') && s <= a'.signaturesByIssuer.Keys
  {
    hide Deliver, Encoded, Extended, SignsRight, OwnSignature;
    ExtendedItself(a);
    txs := [];
    if s != {} {
      var p := Pick(s);
      var before := SignAll(t, a, s - {p});
      var a' := DeliverAll(t.w, t.c, a, before);
      ExtendedFields(a, a');
      var raw := Encoded(t, p, OwnSignature(t, p, a.milestone.value.essence));
      SignOne(t, a', p);
      DeliverOne(t.w, t.c, a, before, raw);
      txs := before + [raw];
      ExtendedFields(a', DeliverAll(t.w, t.c, a, txs));
      ExtendedTwice(a, a', DeliverAll(t.w, t.c, a, txs));
    }
  }

  // ----- three blocks -----

  /** The first block proposes, the second one proves, the third one signs. Nothing is signed before the third. */
  ghost predicate Proposes(t: Team, core: Core, b: Block) {
    forall raw | raw in b.txs :: IsProposal(t, core.app.state.milestoneIndex, raw)
  }

  ghost predicate Proves(t: Team, core: Core, b: Block) {
    forall raw | raw in b.txs :: IsProof(t, core.app, raw)
  }

  ghost predicate SignsBlock(t: Team, core: Core, b: Block) {
    core.app.milestone.Some? && forall raw | raw in b.txs :: IsSignature(t, core.app.milestone.value.essence, raw)
  }

  /** Members that need no others. The honest ones of a committee are a team if at most F are faulty and the threshold
      is at most N - F (`EnoughHonest`). */
  ghost predicate IsTeam(t: Team, index: uint32) {
    SignsRight(t) && t.honest <= t.c.members(index) && IsEnough(t.c, t.honest)
  }

  /** A block that brings no signatures completes nothing. */
  lemma NothingCompleted(w: World, c: Committee, core: Core, b: Block)
    requires c.t > 0 && Mid(w, c, core.app, b).signaturesByIssuer == map[]
    ensures Execute(w, c, core, b).app == Mid(w, c, core.app, b)
  {
    hide Mid;
  }

  lemma EndBlockKeeps(w: World, c: Committee, a: App, header: Header)
    ensures var a' := EndBlock(w, c, a, header);
      && a'.state == a.state && a'.parentByIssuer == a.parentByIssuer && a'.signaturesByIssuer == a.signaturesByIssuer
      && (a.milestone.Some? ==> a' == a)
  {
    hide NewEssence, EnoughParents;
  }

  /** A block that starts from no milestone has no signatures in the end. */
  lemma FirstBlock(t: Team, core: Core, header: Header) returns (b: Block)
    requires IsTeam(t, core.app.state.milestoneIndex) && Blocks.Valid(t.w, t.c, core.app)
    requires core.app.milestone.None?
    ensures b.header == header && Proposes(t, core, b)
    ensures var a := Execute(t.w, t.c, core, b).app;
      && a == Mid(t.w, t.c, core.app, b) && Blocks.Valid(t.w, t.c, a) && a.state == core.app.state
      && a.signaturesByIssuer == map[] && t.honest <= a.parentByIssuer.Keys
  {
    hide DeliverAll, EndBlock, Extended, Counted, Made, IsProposal, SignsRight;
    var txs := ProposeAll(t, core.app, t.honest);
    b := Block(header, txs);
    var a := DeliverAll(t.w, t.c, core.app, txs);
    ExtendedFields(core.app, a);
    DeliverAllValid(t.w, t.c, core.app, txs);
    EndBlockKeeps(t.w, t.c, a, header);
    MidValid(t.w, t.c, core.app, b);
    NothingCompleted(t.w, t.c, core, b);
  }

  lemma SecondBlock(t: Team, core: Core, header: Header) returns (b: Block)
    requires IsTeam(t, core.app.state.milestoneIndex) && Blocks.Valid(t.w, t.c, core.app)
    requires core.app.signaturesByIssuer == map[] && t.honest <= core.app.parentByIssuer.Keys
    ensures b.header == header && Proves(t, core, b) && (core.app.milestone.Some? ==> b.txs == [])
    ensures var a := Execute(t.w, t.c, core, b).app;
      && a == Mid(t.w, t.c, core.app, b) && Blocks.Valid(t.w, t.c, a) && a.state == core.app.state
      && a.signaturesByIssuer == map[] && a.milestone.Some?
  {
    hide DeliverAll, EndBlock, Extended, Counted, Made, IsProof, SignsRight;
    if core.app.milestone.Some? {
      b := Block(header, []);
      DeliverNone(t.w, t.c, core.app);
      EndBlockKeeps(t.w, t.c, core.app, header);
    } else {
      var txs := ProveAll(t, core.app, t.honest);
      b := Block(header, txs);
      var a := DeliverAll(t.w, t.c, core.app, txs);
      ExtendedFields(core.app, a);
      DeliverAllValid(t.w, t.c, core.app, txs);
      EndBlockKeeps(t.w, t.c, a, header);
      HonestEssence(t, a, header);
    }
    MidValid(t.w, t.c, core.app, b);
    NothingCompleted(t.w, t.c, core, b);
  }

  lemma DeliverNone(w: World, c: Committee, a: App)
    ensures DeliverAll(w, c, a, []) == a
  {
  }

  lemma HonestEssence(t: Team, a: App, header: Header)
    requires IsTeam(t, a.state.milestoneIndex) && Counted(t.c, a)
    requires forall p | p in t.honest :: p in a.parentByIssuer && t.honest <= ProofIssuers(a, a.parentByIssuer[p])
    ensures EndBlock(t.w, t.c, a, header).milestone.Some?
  {
    hide EndBlock, Counted, SignsRight;
    HonestSuffice(t.w, t.c, a, header, t.honest);
  }

  lemma HonestComplete(t: Team, a: App)
    requires t.c.t <= |t.honest| && a.milestone.Some? && t.honest <= a.signaturesByIssuer.Keys
    ensures Complete(t.c, a)
  {
    SubsetSize(t.honest, a.signaturesByIssuer.Keys);
  }

  lemma ThirdBlock(t: Team, core: Core, header: Header) returns (b: Block)
    requires SignsRight(t) && t.honest <= t.c.members(core.app.state.milestoneIndex) && t.c.t <= |t.honest|
    requires Blocks.Valid(t.w, t.c, core.app) && core.app.milestone.Some?
    ensures b.header == header && SignsBlock(t, core, b)
    ensures var mid := Mid(t.w, t.c, core.app, b); Complete(t.c, mid) && mid.milestone == core.app.milestone
  {
    hide DeliverAll, EndBlock, Extended, Counted, Made, Signed, IsSignature, SignsRight, Complete;
    var txs := SignAll(t, core.app, t.honest);
    b := Block(header, txs);
    var a := DeliverAll(t.w, t.c, core.app, txs);
    ExtendedFields(core.app, a);
    DeliverAllValid(t.w, t.c, core.app, txs);
    EndBlockKeeps(t.w, t.c, a, header);
    HonestComplete(t, a);
  }

  /** From every valid state without a milestone, three blocks of transactions of honest members, and of no one else,
      complete the milestone of the current index. */
  lemma HonestBlocksComplete(t: Team, core: Core, times: (int, int, int)) returns (b1: Block, b2: Block, b3: Block)
    requires IsTeam(t, core.app.state.milestoneIndex) && Blocks.Valid(t.w, t.c, core.app)
    requires core.app.milestone.None?
    ensures IsChain(core, [b1, b2, b3])
    ensures Proposes(t, core, b1)
    ensures var core1 := Execute(t.w, t.c, core, b1);
      && Proves(t, core1, b2) && (core1.app.milestone.Some? ==> b2.txs == [])
      && var core2 := Execute(t.w, t.c, core1, b2);
      && SignsBlock(t, core2, b3)
      && core1.app == Mid(t.w, t.c, core.app, b1) && t.honest <= core1.app.parentByIssuer.Keys
      && core2.app == Mid(t.w, t.c, core1.app, b2) && core2.app.signaturesByIssuer == map[]
      && core1.app.state == core2.app.state == core.app.state
      && var mid := Mid(t.w, t.c, core2.app, b3);
      && Complete(t.c, mid) && mid.milestone.value.essence.index == core.app.state.milestoneIndex
  {
    hide Execute, Mid, Counted, Made, Signed, Proposes, Proves, SignsBlock, SignsRight, Complete, NextInt64;
    var h1 := NextInt64(core.info.height);
    var h2 := NextInt64(h1);
    b1 := FirstBlock(t, core, Header(h1, times.0));
    var core1 := Execute(t.w, t.c, core, b1);
    b2 := SecondBlock(t, core1, Header(h2, times.1));
    var core2 := Execute(t.w, t.c, core1, b2);
    b3 := ThirdBlock(t, core2, Header(NextInt64(h2), times.2));
    EssenceOfState(t.w, t.c, core2.app);
  }

  lemma EssenceOfState(w: World, c: Committee, a: App)
    requires Blocks.Valid(w, c, a) && a.milestone.Some?
    ensures a.milestone.value.essence.index == a.state.milestoneIndex
  {
    hide Counted, Signed, EnoughParents;
  }

  // ----- whatever else the blocks contain -----

  lemma DeliverExtends(w: World, c: Committee, a: App, raw: seq<byte>)
    ensures Extended(a, Deliver(w, c, a, raw).1)
  {
    hide UnmarshalTx, Apply, Extended;
    ExtendedItself(a);
    var u := UnmarshalTx(c.members(a.state.milestoneIndex), w.verify, raw);
    if u.Ok? && Apply(w, a, u.issuer, u.tx).Done? {
      ApplyExtends(w, a, u.issuer, u.tx);
    }
  }

  lemma {:induction false} DeliverAllExtends(w: World, c: Committee, a: App, txs: seq<seq<byte>>)
    ensures Extended(a, DeliverAll(w, c, a, txs))
  {
    hide Deliver, Extended;
    ExtendedItself(a);
    if txs != [] {
      var before := DeliverAll(w, c, a, txs[..|txs| - 1]);
      DeliverAllExtends(w, c, a, txs[..|txs| - 1]);
      DeliverExtends(w, c, before, txs[|txs| - 1]);
      ExtendedTwice(a, before, DeliverAll(w, c, a, txs));
    }
  }

  /** The states right before and right after one of the transactions. */
  lemma DeliverThis(w: World, c: Committee, a: App, txs: seq<seq<byte>>, raw: seq<byte>) returns (a1: App, a2: App)
    requires raw in txs
    ensures a2 == Deliver(w, c, a1, raw).1 && Extended(a, a1) && Extended(a2, DeliverAll(w, c, a, txs))
  {
    hide Deliver, Extended;
    var i :| 0 <= i < |txs| && txs[i] == raw;
    a1, a2 := DeliverAll(w, c, a, txs[..i]), DeliverAll(w, c, a, txs[..i + 1]);
    assert txs[..i + 1] == txs[..i] + [raw] && txs == txs[..i + 1] + txs[i + 1..];
    DeliverAllExtends(w, c, a, txs[..i]);
    DeliverOne(w, c, a, txs[..i], raw);
    DeliverConcat(w, c, a, txs[..i + 1], txs[i + 1..]);
    DeliverAllExtends(w, c, a2, txs[i + 1..]);
  }

  lemma ProposalIn(t: Team, a: App, txs: seq<seq<byte>>, p: Byte32)
    requires IsTeam(t, a.state.milestoneIndex) && p in t.honest && a.milestone.None?
    requires Encoded(t, p, Parent(a.state.milestoneIndex, t.proposal(p))) in txs
    ensures p in DeliverAll(t.w, t.c, a, txs).parentByIssuer
  {
    hide Deliver, DeliverAll, Extended, Encoded, SignsRight;
    var a1, a2 := DeliverThis(t.w, t.c, a, txs, Encoded(t, p, Parent(a.state.milestoneIndex, t.proposal(p))));
    ExtendedFields(a, a1);
    ProposeOne(t, a1, p);
    ExtendedFields(a2, DeliverAll(t.w, t.c, a, txs));
  }

  lemma ProofIn(t: Team, a: App, txs: seq<seq<byte>>, q: Byte32, b: Byte32)
    requires IsTeam(t, a.state.milestoneIndex) && q in t.honest && a.milestone.None? && Count(a, b) >= 1
    requires Encoded(t, q, Proof(a.state.milestoneIndex, b)) in txs
    ensures q in ProofIssuers(DeliverAll(t.w, t.c, a, txs), b)
  {
    hide Deliver, DeliverAll, Extended, Encoded, SignsRight;
    var a1, a2 := DeliverThis(t.w, t.c, a, txs, Encoded(t, q, Proof(a.state.milestoneIndex, b)));
    ExtendedFields(a, a1);
    ProveOne(t, a1, q, b);
    ExtendedFields(a2, DeliverAll(t.w, t.c, a, txs));
  }

  lemma SignatureIn(t: Team, a: App, txs: seq<seq<byte>>, p: Byte32)
    requires IsTeam(t, a.state.milestoneIndex) && p in t.honest && a.milestone.Some?
    requires Encoded(t, p, OwnSignature(t, p, a.milestone.value.essence)) in txs
    ensures p in DeliverAll(t.w, t.c, a, txs).signaturesByIssuer
  {
    hide Deliver, DeliverAll, Extended, Encoded, SignsRight, OwnSignature;
    var a1, a2 := DeliverThis(t.w, t.c, a, txs, Encoded(t, p, OwnSignature(t, p, a.milestone.value.essence)));
    ExtendedFields(a, a1);
    SignOne(t, a1, p);
    ExtendedFields(a2, DeliverAll(t.w, t.c, a, txs));
  }

  /** What stays from block to block until a milestone is completed. */
  ghost predicate Carried(a: App, a': App) {
    && a'.state == a.state && (a.milestone.Some? ==> a'.milestone == a.milestone)
    && (forall p | p in a.parentByIssuer :: p in a'.parentByIssuer && a'.parentByIssuer[p] == a.parentByIssuer[p])
    && (forall b :: Count(a, b) <= Count(a', b) && ProofIssuers(a, b) <= ProofIssuers(a', b))
    && a.signaturesByIssuer.Keys <= a'.signaturesByIssuer.Keys
  }

  lemma CarriedTwice(a: App, a': App, a'': App)
    requires Carried(a, a') && Carried(a', a'')
    ensures Carried(a, a'')
  {
  }

  lemma EndBlockCarries(w: World, c: Committee, a: App, a': App, header: Header)
    requires Extended(a, a')
    ensures Carried(a, EndBlock(w, c, a', header)) && Carried(a', EndBlock(w, c, a', header))
    ensures forall b :: ProofIssuers(EndBlock(w, c, a', header), b) == ProofIssuers(a', b)
  {
    hide NewEssence, EnoughParents;
  }

  lemma MidCarries(w: World, c: Committee, a: App, b: Block)
    ensures Carried(a, Mid(w, c, a, b)) && Carried(DeliverAll(w, c, a, b.txs), Mid(w, c, a, b))
    ensures forall x :: ProofIssuers(Mid(w, c, a, b), x) == ProofIssuers(DeliverAll(w, c, a, b.txs), x)
    ensures Mid(w, c, a, b).parentByIssuer == DeliverAll(w, c, a, b.txs).parentByIssuer
  {
    hide DeliverAll, EndBlock, Extended, Carried;
    DeliverAllExtends(w, c, a, b.txs);
    EndBlockCarries(w, c, a, DeliverAll(w, c, a, b.txs), b.header);
    EndBlockKeeps(w, c, DeliverAll(w, c, a, b.txs), b.header);
  }

  /** None of the first `n` blocks completes a milestone. */
  ghost predicate NoneCompletes(t: Team, core: Core, blocks: seq<Block>, n: nat) {
    n <= |blocks| && forall k: nat | k < n :: !Complete(t.c, MidAt(t.w, t.c, core, blocks, k))
  }

  lemma RunIsMid(t: Team, core: Core, blocks: seq<Block>, n: nat, k: nat)
    requires NoneCompletes(t, core, blocks, n) && k < n
    ensures Run(t.w, t.c, core, blocks[..k + 1]).app == MidAt(t.w, t.c, core, blocks, k)
  {
    hide Mid, Complete;
    RunNext(t.w, t.c, core, blocks, k);
    assert !Complete(t.c, MidAt(t.w, t.c, core, blocks, k));
  }

  lemma {:induction false} RunCarries(t: Team, core: Core, blocks: seq<Block>, n: nat, i: nat, j: nat)
    requires NoneCompletes(t, core, blocks, n) && i <= j <= n
    ensures Carried(Run(t.w, t.c, core, blocks[..i]).app, Run(t.w, t.c, core, blocks[..j]).app)
    decreases j - i
  {
    hide Run, Carried, Mid, NoneCompletes;
    Bounded(t, core, blocks, n);
    if i == j {
      CarriedItself(Run(t.w, t.c, core, blocks[..i]).app);
    } else {
      RunCarries(t, core, blocks, n, i, j - 1);
      RunIsMid(t, core, blocks, n, j - 1);
      MidCarries(t.w, t.c, Run(t.w, t.c, core, blocks[..j - 1]).app, blocks[j - 1]);
      CarriedTwice(Run(t.w, t.c, core, blocks[..i]).app, Run(t.w, t.c, core, blocks[..j - 1]).app,
                   Run(t.w, t.c, core, blocks[..j]).app);
    }
  }

  lemma CarriedItself(a: App)
    ensures Carried(a, a)
  {
  }

  lemma Bounded(t: Team, core: Core, blocks: seq<Block>, n: nat)
    requires NoneCompletes(t, core, blocks, n)
    ensures n <= |blocks|
  {
  }

  /** The transaction is in one of the blocks from `i` to `j`. */
  ghost predicate InBlocks(blocks: seq<Block>, i: nat, j: nat, raw: seq<byte>) {
    exists k: nat :: i <= k < j && k < |blocks| && raw in blocks[k].txs
  }

  /** Each honest member's proposal is in the first `k1` blocks. */
  ghost predicate AllPropose(t: Team, index: uint32, blocks: seq<Block>, k1: nat) {
    forall p | p in t.honest :: InBlocks(blocks, 0, k1, Encoded(t, p, Parent(index, t.proposal(p))))
  }

  /** Each honest member's proof of each honest proposal that the state `a` records is in the blocks from k1 to k2. */
  ghost predicate AllProve(t: Team, a: App, blocks: seq<Block>, k1: nat, k2: nat) {
    forall p, q | p in t.honest && q in t.honest && p in a.parentByIssuer ::
      InBlocks(blocks, k1, k2, Encoded(t, q, Proof(a.state.milestoneIndex, a.parentByIssuer[p])))
  }

  /** Each honest member's signature of the essence is in the blocks from k2 to k3. */
  ghost predicate AllSign(t: Team, e: Essence, blocks: seq<Block>, k2: nat, k3: nat) {
    forall p | p in t.honest :: InBlocks(blocks, k2, k3, Encoded(t, p, OwnSignature(t, p, e)))
  }

  /** The state before the k-th block. */
  ghost function Before(t: Team, core: Core, blocks: seq<Block>, k: nat): App
    requires k <= |blocks|
  {
    Run(t.w, t.c, core, blocks[..k]).app
  }

  lemma OneProposed(t: Team, core: Core, blocks: seq<Block>, n: nat, k1: nat, p: Byte32, k: nat)
    requires IsTeam(t, core.app.state.milestoneIndex) && NoneCompletes(t, core, blocks, n) && k < k1 <= n <= |blocks|
    requires Before(t, core, blocks, 0) == core.app && Before(t, core, blocks, k1).milestone.None?
    requires p in t.honest
    requires Encoded(t, p, Parent(core.app.state.milestoneIndex, t.proposal(p))) in blocks[k].txs
    ensures p in Before(t, core, blocks, k1).parentByIssuer
  {
    hide Run, Mid, DeliverAll, Encoded, SignsRight, NoneCompletes, IsTeam;
    var a := Before(t, core, blocks, k);
    RunCarries(t, core, blocks, n, 0, k);
    RunCarries(t, core, blocks, n, k, k1);
    ProposalIn(t, a, blocks[k].txs, p);
    MidCarries(t.w, t.c, a, blocks[k]);
    RunIsMid(t, core, blocks, n, k);
    RunCarries(t, core, blocks, n, k + 1, k1);
  }

  lemma AllProposed(t: Team, core: Core, blocks: seq<Block>, n: nat, k1: nat)
    requires IsTeam(t, core.app.state.milestoneIndex) && NoneCompletes(t, core, blocks, n) && k1 <= n
    requires AllPropose(t, core.app.state.milestoneIndex, blocks, k1) && Before(t, core, blocks, k1).milestone.None?
    ensures t.honest <= Before(t, core, blocks, k1).parentByIssuer.Keys
  {
    hide Run, Encoded, IsTeam, NoneCompletes;
    Bounded(t, core, blocks, n);
    assert blocks[..0] == [];
    RunNone(t, core);
    forall p | p in t.honest ensures p in Before(t, core, blocks, k1).parentByIssuer {
      var raw := Encoded(t, p, Parent(core.app.state.milestoneIndex, t.proposal(p)));
      assert InBlocks(blocks, 0, k1, raw);
      var k: nat :| k < k1 && k < |blocks| && raw in blocks[k].txs;
      OneProposed(t, core, blocks, n, k1, p, k);
    }
  }

  lemma RunNone(t: Team, core: Core)
    ensures Run(t.w, t.c, core, []) == core
  {
  }

  lemma OneProved(t: Team, core: Core, blocks: seq<Block>, n: nat, k1: nat, k2: nat, q: Byte32, b: Byte32, k: nat)
    requires IsTeam(t, core.app.state.milestoneIndex) && NoneCompletes(t, core, blocks, n) && k1 <= k < k2 <= n
    requires Before(t, core, blocks, k1).state == core.app.state && Count(Before(t, core, blocks, k1), b) >= 1
    requires q in t.honest && Before(t, core, blocks, k2).milestone.None? && k < |blocks|
    requires Encoded(t, q, Proof(core.app.state.milestoneIndex, b)) in blocks[k].txs
    ensures q in ProofIssuers(Before(t, core, blocks, k2), b)
  {
    hide Run, Mid, DeliverAll, Encoded, SignsRight, NoneCompletes, Counted, Carried;
    Bounded(t, core, blocks, n);
    RunCarries(t, core, blocks, n, k1, k);
    CarriedFields(Before(t, core, blocks, k1), Before(t, core, blocks, k), b);
    RunCarries(t, core, blocks, n, k, k2);
    CarriedFields(Before(t, core, blocks, k), Before(t, core, blocks, k2), b);
    ProofIn(t, Before(t, core, blocks, k), blocks[k].txs, q, b);
    MidCarries(t.w, t.c, Before(t, core, blocks, k), blocks[k]);
    RunIsMid(t, core, blocks, n, k);
    RunCarries(t, core, blocks, n, k + 1, k2);
    CarriedFields(Before(t, core, blocks, k + 1), Before(t, core, blocks, k2), b);
  }

  lemma CarriedFields(a: App, a': App, b: Byte32)
    requires Carried(a, a')
    ensures a'.state == a.state && (a.milestone.Some? ==> a'.milestone == a.milestone)
    ensures Count(a, b) <= Count(a', b) && ProofIssuers(a, b) <= ProofIssuers(a', b)
    ensures a.signaturesByIssuer.Keys <= a'.signaturesByIssuer.Keys
    ensures forall p | p in a.parentByIssuer :: p in a'.parentByIssuer && a'.parentByIssuer[p] == a.parentByIssuer[p]
  {
  }

  lemma AllProved(t: Team, core: Core, blocks: seq<Block>, n: nat, k1: nat, k2: nat, p: Byte32)
    requires IsTeam(t, core.app.state.milestoneIndex) && NoneCompletes(t, core, blocks, n) && k1 <= k2 <= n
    requires Before(t, core, blocks, k1).state == core.app.state && Counted(t.c, Before(t, core, blocks, k1))
    requires AllProve(t, Before(t, core, blocks, k1), blocks, k1, k2) && Before(t, core, blocks, k2).milestone.None?
    requires p in t.honest && p in Before(t, core, blocks, k1).parentByIssuer
    ensures t.honest <= ProofIssuers(Before(t, core, blocks, k2), Before(t, core, blocks, k1).parentByIssuer[p])
  {
    hide Run, Before, Encoded, IsTeam, NoneCompletes, Counted;
    Bounded(t, core, blocks, n);
    var a1 := Before(t, core, blocks, k1);
    var b := a1.parentByIssuer[p];
    ProposedCount(t.c, a1, p);
    forall q | q in t.honest ensures q in ProofIssuers(Before(t, core, blocks, k2), b) {
      var raw := Encoded(t, q, Proof(a1.state.milestoneIndex, b));
      assert InBlocks(blocks, k1, k2, raw);
      var k: nat :| k1 <= k < k2 && k < |blocks| && raw in blocks[k].txs;
      OneProved(t, core, blocks, n, k1, k2, q, b, k);
    }
  }

  lemma AllSigned(t: Team, core: Core, blocks: seq<Block>, n: nat, k2: nat)
    requires IsTeam(t, core.app.state.milestoneIndex) && NoneCompletes(t, core, blocks, n) && k2 <= n
    requires Before(t, core, blocks, k2).state == core.app.state && Before(t, core, blocks, k2).milestone.Some?
    requires AllSign(t, Before(t, core, blocks, k2).milestone.value.essence, blocks, k2, n)
    ensures t.honest <= Before(t, core, blocks, n).signaturesByIssuer.Keys
    ensures Before(t, core, blocks, n).milestone == Before(t, core, blocks, k2).milestone
    ensures Before(t, core, blocks, n).state == core.app.state
  {
    hide Run, Mid, DeliverAll, Encoded, SignsRight, NoneCompletes, OwnSignature;
    Bounded(t, core, blocks, n);
    var a2 := Before(t, core, blocks, k2);
    RunCarries(t, core, blocks, n, k2, n);
    forall p | p in t.honest ensures p in Before(t, core, blocks, n).signaturesByIssuer {
      var raw := Encoded(t, p, OwnSignature(t, p, a2.milestone.value.essence));
      assert InBlocks(blocks, k2, n, raw);
      var k: nat :| k2 <= k < n && k < |blocks| && raw in blocks[k].txs;
      RunCarries(t, core, blocks, n, k2, k);
      SignatureIn(t, Before(t, core, blocks, k), blocks[k].txs, p);
      MidCarries(t.w, t.c, Before(t, core, blocks, k), blocks[k]);
      RunIsMid(t, core, blocks, n, k);
      RunCarries(t, core, blocks, n, k + 1, n);
    }
  }

  lemma SomeoneIsHonest(t: Team, index: uint32) returns (p: Byte32)
    requires IsTeam(t, index)
    ensures p in t.honest
  {
    hide SignsRight;
    var members := t.c.members(index);
    assert members - (members - t.honest) == t.honest;
    SubsetSize(members, (members - t.honest) + t.honest);
    p :| p in t.honest;
  }

  /** With the proposals and the proofs in the blocks, there is an essence. */
  lemma EssenceComes(t: Team, core: Core, blocks: seq<Block>, n: nat, k1: nat, k2: nat)
    requires IsTeam(t, core.app.state.milestoneIndex) && Blocks.Valid(t.w, t.c, core.app)
    requires NoneCompletes(t, core, blocks, n) && k1 <= k2 <= n
    requires AllPropose(t, core.app.state.milestoneIndex, blocks, k1)
    requires Before(t, core, blocks, k1).milestone.None? ==>
      AllProve(t, Before(t, core, blocks, k1), blocks, k1, k2)
    ensures Before(t, core, blocks, k2).milestone.Some? && Before(t, core, blocks, k2).state == core.app.state
  {
    hide Run, Mid, DeliverAll, Encoded, SignsRight, NoneCompletes, Counted, AllPropose, EndBlock, Blocks.Valid;
    Bounded(t, core, blocks, n);
    assert blocks[..0] == [] && Run(t.w, t.c, core, []) == core by { RunNone(t, core); }
    RunCarries(t, core, blocks, n, 0, k1);
    RunCarries(t, core, blocks, n, 0, k2);
    RunCarries(t, core, blocks, n, k1, k2);
    var a1, a2 := Before(t, core, blocks, k1), Before(t, core, blocks, k2);
    if a2.milestone.None? {
      AllProposed(t, core, blocks, n, k1);
      RunValid(t.w, t.c, core, blocks[..k1]);
      ValidIsCounted(t.w, t.c, a1);
      forall p | p in t.honest ensures p in a2.parentByIssuer && t.honest <= ProofIssuers(a2, a2.parentByIssuer[p]) {
        AllProved(t, core, blocks, n, k1, k2, p);
      }
      SomeProof(t, core.app.state.milestoneIndex, a1, blocks, k1, k2);
      LastBlock(t, core, blocks, n, k2);
    }
  }

  lemma ValidIsCounted(w: World, c: Committee, a: App)
    requires Blocks.Valid(w, c, a)
    ensures Counted(c, a)
  {
  }

  lemma SomeProof(t: Team, index: uint32, a: App, blocks: seq<Block>, k1: nat, k2: nat)
    requires IsTeam(t, index) && t.honest <= a.parentByIssuer.Keys && AllProve(t, a, blocks, k1, k2)
    ensures k1 < k2
  {
    hide SignsRight, Encoded;
    var p := SomeoneIsHonest(t, index);
    assert InBlocks(blocks, k1, k2, Encoded(t, p, Proof(a.state.milestoneIndex, a.parentByIssuer[p])));
  }

  /** A block after which all the proposals and proofs are recorded makes the essence. */
  lemma EssenceAtTheEnd(t: Team, a: App, b: Block)
    requires IsTeam(t, a.state.milestoneIndex) && Blocks.Valid(t.w, t.c, a)
    requires forall p | p in t.honest ::
      p in Mid(t.w, t.c, a, b).parentByIssuer &&
      t.honest <= ProofIssuers(Mid(t.w, t.c, a, b), Mid(t.w, t.c, a, b).parentByIssuer[p])
    ensures Mid(t.w, t.c, a, b).milestone.Some?
  {
    hide DeliverAll, SignsRight, Counted, EndBlock, Blocks.Valid, Carried;
    var d := DeliverAll(t.w, t.c, a, b.txs);
    MidCarries(t.w, t.c, a, b);
    DeliverAllFrozen(t.w, t.c, a, b.txs);
    DeliverAllValid(t.w, t.c, a, b.txs);
    ValidIsCounted(t.w, t.c, d);
    HonestEssence(t, d, b.header);
  }

  /** The last of the blocks with the proofs makes the essence. */
  lemma LastBlock(t: Team, core: Core, blocks: seq<Block>, n: nat, k2: nat)
    requires IsTeam(t, core.app.state.milestoneIndex) && Blocks.Valid(t.w, t.c, core.app)
    requires NoneCompletes(t, core, blocks, n) && 0 < k2 <= n
    requires Before(t, core, blocks, k2).state == core.app.state
    requires forall p | p in t.honest ::
      p in Before(t, core, blocks, k2).parentByIssuer &&
      t.honest <= ProofIssuers(Before(t, core, blocks, k2), Before(t, core, blocks, k2).parentByIssuer[p])
    ensures Before(t, core, blocks, k2).milestone.Some?
  {
    hide Run, Mid, IsTeam, NoneCompletes, Blocks.Valid;
    Bounded(t, core, blocks, n);
    var a, b := Before(t, core, blocks, k2 - 1), blocks[k2 - 1];
    RunIsMid(t, core, blocks, n, k2 - 1);
    MidFrozen(t.w, t.c, a, b);
    RunValid(t.w, t.c, core, blocks[..k2 - 1]);
    EssenceAtTheEnd(t, a, b);
  }

  lemma {:induction false} FirstComplete(t: Team, core: Core, blocks: seq<Block>, n: nat) returns (k: nat)
    requires n <= |blocks| && !NoneCompletes(t, core, blocks, n)
    ensures k < n && Complete(t.c, MidAt(t.w, t.c, core, blocks, k)) && NoneCompletes(t, core, blocks, k)
  {
    hide MidAt, Complete;
    if n > 0 && !NoneCompletes(t, core, blocks, n - 1) {
      k := FirstComplete(t, core, blocks, n - 1);
    } else {
      k := n - 1;
    }
  }

  /** Along every chain of blocks that contains, one after the other, the proposals of the honest members, their proofs
      of what was proposed, and their signatures of the essence, the milestone of the current index is completed,
      whatever else anybody has put into these blocks. */
  lemma HonestTransactionsSuffice(t: Team, core: Core, blocks: seq<Block>, k1: nat, k2: nat, k3: nat) returns (k: nat)
    requires IsTeam(t, core.app.state.milestoneIndex) && Blocks.Valid(t.w, t.c, core.app)
    requires k1 <= k2 <= k3 <= |blocks|
    requires AllPropose(t, core.app.state.milestoneIndex, blocks, k1)
    requires NoneCompletes(t, core, blocks, k1) && Before(t, core, blocks, k1).milestone.None? ==>
      AllProve(t, Before(t, core, blocks, k1), blocks, k1, k2)
    requires NoneCompletes(t, core, blocks, k2) && Before(t, core, blocks, k2).milestone.Some? ==>
      AllSign(t, Before(t, core, blocks, k2).milestone.value.essence, blocks, k2, k3)
    ensures k < k3 && Complete(t.c, MidAt(t.w, t.c, core, blocks, k))
    ensures MidAt(t.w, t.c, core, blocks, k).milestone.value.essence.index == core.app.state.milestoneIndex
  {
    hide Run, MidAt, Complete, SignsRight, AllPropose, AllProve, AllSign, Blocks.Valid, Carried, NoneCompletes;
    if NoneCompletes(t, core, blocks, k3) {
      Fewer(t, core, blocks, k1, k3);
      Fewer(t, core, blocks, k2, k3);
      EssenceComes(t, core, blocks, k3, k1, k2);
      LastCompletes(t, core, blocks, k2, k3);
    }
    k := FirstComplete(t, core, blocks, k3);
    CompletedIndex(t, core, blocks, k);
  }

  lemma Fewer(t: Team, core: Core, blocks: seq<Block>, i: nat, n: nat)
    requires NoneCompletes(t, core, blocks, n) && i <= n
    ensures NoneCompletes(t, core, blocks, i)
  {
    hide MidAt, Complete;
  }

  /** With the signatures in the blocks, they cannot all have completed nothing. */
  lemma LastCompletes(t: Team, core: Core, blocks: seq<Block>, k2: nat, k3: nat)
    requires IsTeam(t, core.app.state.milestoneIndex) && Blocks.Valid(t.w, t.c, core.app)
    requires k2 <= k3 <= |blocks|
    requires Before(t, core, blocks, k2).state == core.app.state && Before(t, core, blocks, k2).milestone.Some?
    requires AllSign(t, Before(t, core, blocks, k2).milestone.value.essence, blocks, k2, k3)
    ensures !NoneCompletes(t, core, blocks, k3)
  {
    if NoneCompletes(t, core, blocks, k3) {
      SignedCompletes(t, core, blocks, k2, k3);
    }
  }

  lemma SignedCompletes(t: Team, core: Core, blocks: seq<Block>, k2: nat, k3: nat)
    requires IsTeam(t, core.app.state.milestoneIndex) && Blocks.Valid(t.w, t.c, core.app)
    requires NoneCompletes(t, core, blocks, k3) && k2 <= k3
    requires Before(t, core, blocks, k2).state == core.app.state && Before(t, core, blocks, k2).milestone.Some?
    requires AllSign(t, Before(t, core, blocks, k2).milestone.value.essence, blocks, k2, k3)
    ensures k3 > 0 && Complete(t.c, MidAt(t.w, t.c, core, blocks, k3 - 1))
  {
    hide Run, MidAt, Complete, SignsRight, Blocks.Valid, Carried, Encoded, OwnSignature, NoneCompletes;
    Bounded(t, core, blocks, k3);
    AllSigned(t, core, blocks, k3, k2);
    var p := SomeoneIsHonest(t, core.app.state.milestoneIndex);
    assert InBlocks(blocks, k2, k3, Encoded(t, p, OwnSignature(t, p,
      Before(t, core, blocks, k2).milestone.value.essence)));
    RunIsMid(t, core, blocks, k3, k3 - 1);
    RunValid(t.w, t.c, core, blocks[..k3]);
    ValidIsCounted(t.w, t.c, Before(t, core, blocks, k3));
    HonestComplete(t, Before(t, core, blocks, k3));
  }

  lemma CompletedIndex(t: Team, core: Core, blocks: seq<Block>, k: nat)
    requires Blocks.Valid(t.w, t.c, core.app) && k < |blocks|
    requires NoneCompletes(t, core, blocks, k) && Complete(t.c, MidAt(t.w, t.c, core, blocks, k))
    ensures MidAt(t.w, t.c, core, blocks, k).milestone.value.essence.index == core.app.state.milestoneIndex
  {
    hide Run, Mid, Blocks.Valid, NoneCompletes;
    assert blocks[..0] == [] && Run(t.w, t.c, core, []) == core by { RunNone(t, core); }
    RunCarries(t, core, blocks, k, 0, k);
    RunValid(t.w, t.c, core, blocks[..k]);
    MidValid(t.w, t.c, Before(t, core, blocks, k), blocks[k]);
    MidFrozen(t.w, t.c, Before(t, core, blocks, k), blocks[k]);
    EssenceOfState(t.w, t.c, MidAt(t.w, t.c, core, blocks, k));
  }
}
