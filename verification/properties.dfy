/** Properties of the contract over single invocations and whole traces. */
module Properties {
  import opened Wrappers
  import opened FileStorage
  import opened Contract

  /** No invocation in `invs` calls `set_access_control`. */
  predicate NoAccessWrites(invs: seq<Invocation>) {
    forall i :: 0 <= i < |invs| ==> !invs[i].call.SetAccessControlCall?
  }

  /** What every reachable storage satisfies: the metadata slot holds the
      record of the last allocated id, and the access slot names an id that
      has been allocated. */
  predicate Valid(s: State) {
    && (s.fileMeta.None? <==> FileCount(s) == 0)
    && (s.fileMeta.Some? ==>
          s.fileMeta.value.fileId == FileCount(s) && s.fileMeta.value.accessControl == FileCount(s))
    && (s.accessCon.Some? ==> 1 <= s.accessCon.value.fileId <= FileCount(s))
  }

  // ---------------------------------------------------------------------------
  // Identifier allocation
  // ---------------------------------------------------------------------------

  /** The ids a trace returns are consecutive, continuing from the stored counter. */
  lemma {:induction false} CreatedIdsConsecutive(s: State, invs: seq<Invocation>)
    requires FileCount(s) + CreateCount(invs) <= U64_MAX
    ensures var ids := CreatedIds(Run(s, invs).replies);
      && |ids| == CreateCount(invs)
      && forall i :: 0 <= i < |ids| ==> ids[i] == FileCount(s) + 1 + i
    decreases |invs|
  {
    if |invs| > 0 {
      var o := Invoke(s, invs[0]);
      var rest := Run(o.state, invs[1..]);
      CreatedIdsConsecutive(o.state, invs[1..]);
      var replies := [o.reply] + rest.replies;
      assert Run(s, invs).replies == replies;
      assert replies[1..] == rest.replies;
    }
  }

  /** From a fresh deployment, the ids returned are 1, 2, 3, ...: strictly
      increasing, never reused and never 0. */
  lemma {:induction false} IdsStrictlyIncreasingFromOne(invs: seq<Invocation>)
    requires CreateCount(invs) <= U64_MAX
    ensures var ids := CreatedIds(Run(Fresh, invs).replies);
      && |ids| == CreateCount(invs)
      && (forall i :: 0 <= i < |ids| ==> ids[i] == i + 1)
      && (forall i, j :: 0 <= i < j < |ids| ==> 0 < ids[i] < ids[j])
  {
    CreatedIdsConsecutive(Fresh, invs);
  }

  /** Two `create_file` calls with identical arguments still get distinct ids. */
  lemma CreateNotIdempotent(s: State, call: Call, t1: u64, t2: u64)
    requires call.CreateFileCall? && FileCount(s) + 1 < U64_MAX
    ensures var first := Invoke(s, Invocation(call, t1));
      var second := Invoke(first.state, Invocation(call, t2));
      second.reply.id == first.reply.id + 1
  {
  }

  // ---------------------------------------------------------------------------
  // The metadata slot
  // ---------------------------------------------------------------------------

  /** A `get_file_metadata` right after `create_file` returns a record whose
      fields are the call's arguments, stamped with the ledger time, whatever
      id is asked for. */
  lemma CreateThenGet(s: State, fileName: string, fileHash: string, owner: string,
                      encrypted: bool, now: u64, asked: u64, later: u64)
    requires FileCount(s) < U64_MAX
    ensures var created := Invoke(s, Invocation(CreateFileCall(fileName, fileHash, owner, encrypted), now));
      var got := Invoke(created.state, Invocation(GetFileMetadataCall(asked), later));
      && created.reply == FileId(FileCount(s) + 1)
      && got.reply == Metadata(FileMetadata(created.reply.id, fileName, fileHash, owner, now, encrypted, created.reply.id))
  {
  }

  /** With the single metadata slot, asking for the first of two created files
      returns the second file's record. */
  lemma SecondCreateShadowsFirst(s: State, first: Call, second: Call, t1: u64, t2: u64, t3: u64)
    requires first.CreateFileCall? && second.CreateFileCall?
    requires FileCount(s) + 1 < U64_MAX
    ensures var a := Invoke(s, Invocation(first, t1));
      var b := Invoke(a.state, Invocation(second, t2));
      var got := Invoke(b.state, Invocation(GetFileMetadataCall(a.reply.id), t3));
      && b.reply.id != a.reply.id
      && got.reply == Metadata(FileMetadata(b.reply.id, second.fileName, second.fileHash,
                                            second.owner, t2, second.encrypted, b.reply.id))
  {
  }

  /** `get_file_metadata` gives the same answer for every requested id. */
  lemma GetIgnoresRequestedId(s: State, a: u64, b: u64)
    ensures GetFileMetadata(s, a) == GetFileMetadata(s, b)
  {
  }

  // ---------------------------------------------------------------------------
  // The access slot
  // ---------------------------------------------------------------------------

  /** Calls other than `set_access_control` never change the access slot. */
  lemma {:induction false} AccessSlotStable(s: State, invs: seq<Invocation>)
    requires FileCount(s) + CreateCount(invs) <= U64_MAX
    requires NoAccessWrites(invs)
    ensures Run(s, invs).state.accessCon == s.accessCon
    decreases |invs|
  {
    if |invs| > 0 {
      var o := Invoke(s, invs[0]);
      assert !invs[0].call.SetAccessControlCall?;
      assert NoAccessWrites(invs[1..]) by {
        forall i | 0 <= i < |invs[1..]| ensures !invs[1..][i].call.SetAccessControlCall? {
          assert invs[1..][i] == invs[i + 1];
        }
      }
      AccessSlotStable(o.state, invs[1..]);
    }
  }

  /** After a successful `set_access_control(fileId, user, permission)`, and
      until the next `set_access_control`, `check_access(fileId, user)` answers
      `permission` and every other (id, user) pair is answered `false`. */
  lemma GrantHoldsUntilNextSet(s: State, fileId: u64, user: string, permission: bool, t: u64,
                               invs: seq<Invocation>, askedId: u64, askedUser: string, t2: u64)
    requires Invoke(s, Invocation(SetAccessControlCall(fileId, user, permission), t)).reply == NoValue
    requires FileCount(s) + CreateCount(invs) <= U64_MAX
    requires NoAccessWrites(invs)
    ensures var granted := Invoke(s, Invocation(SetAccessControlCall(fileId, user, permission), t)).state;
      var final := Run(granted, invs).state;
      var answer := Invoke(final, Invocation(CheckAccessCall(askedId, askedUser), t2)).reply;
      answer == Access(if askedId == fileId && askedUser == user then permission else false)
  {
    var granted := Invoke(s, Invocation(SetAccessControlCall(fileId, user, permission), t)).state;
    AccessSlotStable(granted, invs);
  }

  /** Without any `set_access_control`, `check_access` panics with the
      access entry not found. */
  lemma CheckBeforeAnySetPanics(invs: seq<Invocation>, fileId: u64, user: string, t: u64)
    requires CreateCount(invs) <= U64_MAX
    requires NoAccessWrites(invs)
    ensures Invoke(Run(Fresh, invs).state, Invocation(CheckAccessCall(fileId, user), t)).reply
            == Panic(AccessNotFound)
  {
    AccessSlotStable(Fresh, invs);
  }

  // ---------------------------------------------------------------------------
  // The storage invariant
  // ---------------------------------------------------------------------------

  /** Every invocation keeps the storage invariant. */
  lemma InvokePreservesValid(s: State, inv: Invocation)
    requires Valid(s) && Fits(s, inv.call)
    ensures Valid(Invoke(s, inv).state)
  {
  }

  /** Every trace keeps the storage invariant. */
  lemma {:induction false} RunPreservesValid(s: State, invs: seq<Invocation>)
    requires Valid(s)
    requires FileCount(s) + CreateCount(invs) <= U64_MAX
    ensures Valid(Run(s, invs).state)
    decreases |invs|
  {
    if |invs| > 0 {
      InvokePreservesValid(s, invs[0]);
      RunPreservesValid(Invoke(s, invs[0]).state, invs[1..]);
    }
  }

  /** Without any `create_file`, `get_file_metadata` panics with the file not found. */
  lemma GetBeforeAnyCreatePanics(invs: seq<Invocation>, fileId: u64, t: u64)
    requires CreateCount(invs) == 0
    ensures Invoke(Run(Fresh, invs).state, Invocation(GetFileMetadataCall(fileId), t)).reply
            == Panic(FileNotFound)
  {
    RunPreservesValid(Fresh, invs);
  }

  /** In a reachable storage, `set_access_control` succeeds exactly for the
      most recently allocated id: access to any earlier file can no longer
      be set. */
  lemma OnlyLatestFileAcceptsAccess(invs: seq<Invocation>, fileId: u64, user: string, permission: bool)
    requires CreateCount(invs) <= U64_MAX
    ensures var s := Run(Fresh, invs).state;
      SetAccessControl(s, fileId, user, permission).Success?
      <==> CreateCount(invs) > 0 && fileId == CreateCount(invs)
  {
    RunPreservesValid(Fresh, invs);
  }

  // ---------------------------------------------------------------------------
  // An end-to-end scenario
  // ---------------------------------------------------------------------------

  /** Alice creates "a.txt" and gets id 1; access for bob on file 1 is granted;
      bob is then allowed and carol is not. */
  lemma AliceBobCarolScenario(t0: u64, t1: u64, t2: u64, t3: u64)
    ensures var created := Invoke(Fresh, Invocation(CreateFileCall("a.txt", "h1", "alice", false), t0));
      var granted := Invoke(created.state, Invocation(SetAccessControlCall(1, "bob", true), t1));
      var bob := Invoke(granted.state, Invocation(CheckAccessCall(1, "bob"), t2));
      var carol := Invoke(bob.state, Invocation(CheckAccessCall(1, "carol"), t3));
      && created.reply == FileId(1)
      && granted.reply == NoValue
      && bob.reply == Access(true)
      && carol.reply == Access(false)
  {
  }
}
