/** Content verification of a container (src/verify.rs). */
module Verify {
  import opened Bytes
  import opened Library
  import opened Merkle
  import opened Format

  datatype Problem =
    | Unparseable(error: ParseError)
    | LeavesMismatch
    | RootMismatch
    | ImageHashMismatch
    | SignatureInvalid
    | NotUnapproved

  /** The leaves one after the other. */
  function Flatten(leaves: seq<Hash4>): (s: seq<byte>)
    ensures |s| == 4 * |leaves|
  {
    if leaves == [] then [] else leaves[0] + Flatten(leaves[1..])
  }

  /** `chunks_exact(4)`. */
  function Chunks4(s: seq<byte>): (leaves: seq<Hash4>)
    ensures |leaves| == |s| / 4
  {
    if |s| < 4 then [] else [s[..4]] + Chunks4(s[4..])
  }

  lemma {:induction false} ChunksOfFlattened(leaves: seq<Hash4>)
    ensures Chunks4(Flatten(leaves)) == leaves
  {
    if leaves != [] {
      ChunksOfFlattened(leaves[1..]);
      var s := Flatten(leaves);
      assert s[..4] == leaves[0] && s[4..] == Flatten(leaves[1..]);
    }
  }

  function MerkleRoot(lib: Library, leaves: seq<Hash4>): Hash4 {
    if leaves == [] then Fill(4, 0) else Tree(lib, leaves)
  }

  lemma ParsedGeometry(lib: Library, blob: seq<byte>)
    requires Parse(lib, blob).Ok?
    ensures var m := Parse(lib, blob).value;
            m.LeavesOff() <= m.PayloadOff() <= m.PayloadOff() + m.payloadSize <= |blob| && m.blockSizeLog2 <= 11
  {
    hide RdU32, BootloaderValid;
  }

  function StoredLeaves(lib: Library, blob: seq<byte>): seq<byte>
    requires Parse(lib, blob).Ok?
  {
    ParsedGeometry(lib, blob);
    var m := Parse(lib, blob).value;
    blob[m.LeavesOff()..m.PayloadOff()]
  }

  function PayloadOf(lib: Library, blob: seq<byte>): seq<byte>
    requires Parse(lib, blob).Ok?
  {
    ParsedGeometry(lib, blob);
    var m := Parse(lib, blob).value;
    blob[m.PayloadOff()..m.PayloadOff() + m.payloadSize]
  }

  // ---- what each problem means ----

  ghost predicate LeavesAgree(lib: Library, blob: seq<byte>)
    requires Parse(lib, blob).Ok?
  {
    StoredLeaves(lib, blob) == Flatten(LeafHashes(lib, PayloadOf(lib, blob), Parse(lib, blob).value.BlockSize()))
  }

  ghost predicate RootAgrees(lib: Library, blob: seq<byte>)
    requires Parse(lib, blob).Ok?
  {
    MerkleRoot(lib, Chunks4(StoredLeaves(lib, blob))) == Parse(lib, blob).value.merkleRoot
  }

  ghost predicate ImageHashAgrees(lib: Library, blob: seq<byte>)
    requires Parse(lib, blob).Ok?
  {
    Parse(lib, blob).value.IsFull() ==> lib.sha256(PayloadOf(lib, blob)) == Parse(lib, blob).value.imageHash
  }

  ghost predicate SignatureHolds(lib: Library, blob: seq<byte>)
    requires Parse(lib, blob).Ok?
  {
    var m := Parse(lib, blob).value;
    m.IsSigned() ==>
      && |blob| >= HEADER_LEN + SIGNED_LEN
      && lib.verifies(m.signer, blob[HEADER_LEN..HEADER_LEN + SIGNED_LEN], m.signature)
  }

  /** A container nothing is wrong with. */
  ghost predicate Sound(lib: Library, blob: seq<byte>) {
    && Parse(lib, blob).Ok?
    && LeavesAgree(lib, blob)
    && RootAgrees(lib, blob)
    && ImageHashAgrees(lib, blob)
    && SignatureHolds(lib, blob)
    && Parse(lib, blob).value.approval == APPROVAL_NONE
  }

  /** Each problem is reported exactly when it is there. */
  ghost predicate Reports(lib: Library, blob: seq<byte>, problems: seq<Problem>)
    requires Parse(lib, blob).Ok?
  {
    && (LeavesMismatch in problems <==> !LeavesAgree(lib, blob))
    && (RootMismatch in problems <==> !RootAgrees(lib, blob))
    && (ImageHashMismatch in problems <==> !ImageHashAgrees(lib, blob))
    && (SignatureInvalid in problems <==> !SignatureHolds(lib, blob))
    && (NotUnapproved in problems <==> Parse(lib, blob).value.approval != APPROVAL_NONE)
  }

  function Note(bad: bool, p: Problem): seq<Problem> {
    if bad then [p] else []
  }

  lemma NotesReport(a: bool, b: bool, c: bool, d: bool, e: bool)
    ensures var ps := Note(a, LeavesMismatch) + Note(b, RootMismatch) + Note(c, ImageHashMismatch)
                      + Note(d, SignatureInvalid) + Note(e, NotUnapproved);
            && (LeavesMismatch in ps <==> a) && (RootMismatch in ps <==> b) && (ImageHashMismatch in ps <==> c)
            && (SignatureInvalid in ps <==> d) && (NotUnapproved in ps <==> e)
            && (ps == [] <==> !a && !b && !c && !d && !e)
  {
  }

  /** src/verify.rs:12-64 */
  method Verify(lib: Library, blob: seq<byte>) returns (problems: seq<Problem>)
    ensures Parse(lib, blob).Err? ==> problems == [Unparseable(Parse(lib, blob).error)]
    ensures Parse(lib, blob).Ok? ==> Reports(lib, blob, problems)
    ensures problems == [] <==> Sound(lib, blob)
  {
    hide Parse, Note, Flatten, Chunks4, LeafHashes, MerkleRoot;
    var parsed := Parse(lib, blob);
    if parsed.Err? {
      return [Unparseable(parsed.error)];
    }
    var m := parsed.value;
    problems := [];
    ParsedGeometry(lib, blob);
    var storedLeaves := blob[m.LeavesOff()..m.PayloadOff()];
    var payload := blob[m.PayloadOff()..m.PayloadOff() + m.payloadSize];

    var recomputed := Flatten(LeafHashes(lib, payload, m.BlockSize()));
    var leavesBad := recomputed != storedLeaves;
    problems := problems + Note(leavesBad, LeavesMismatch);
    var root := RootOf(lib, Chunks4(storedLeaves));
    var rootBad := root != m.merkleRoot;
    problems := problems + Note(rootBad, RootMismatch);
    var hashBad := m.IsFull() && lib.sha256(payload) != m.imageHash;
    problems := problems + Note(hashBad, ImageHashMismatch);
    var signatureBad := m.IsSigned() && !lib.verifies(m.signer, blob[HEADER_LEN..HEADER_LEN + SIGNED_LEN], m.signature);
    problems := problems + Note(signatureBad, SignatureInvalid);
    var approvalBad := m.approval != APPROVAL_NONE;
    problems := problems + Note(approvalBad, NotUnapproved);
    NotesReport(leavesBad, rootBad, hashBad, signatureBad, approvalBad);
    assert problems == Note(leavesBad, LeavesMismatch) + Note(rootBad, RootMismatch) + Note(hashBad, ImageHashMismatch)
                       + Note(signatureBad, SignatureInvalid) + Note(approvalBad, NotUnapproved);
  }

  method RootOf(lib: Library, leaves: seq<Hash4>) returns (root: Hash4)
    ensures root == MerkleRoot(lib, leaves)
  {
    var combiner := new Combiner(lib);
    root := Root(combiner, leaves);
  }
}
