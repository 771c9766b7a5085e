/** The `DecentralizedFileStorage` contract: its records, its instance storage
    and its four entry points, each as a pure transition on the storage.

    The storage has three fixed keys: `C_FILES` (the file counter), `FILE_META`
    (one metadata record) and `ACCE_CON` (one access entry). No key depends on a
    file id, so each slot holds only the most recent value written to it. */
module FileStorage {
  import opened Wrappers

  /** Largest value of Rust's `u64`. */
  const U64_MAX: int := 0xFFFF_FFFF_FFFF_FFFF

  type u64 = x: int | 0 <= x <= U64_MAX

  /** One uploaded file's provenance; `accessControl` is set to `fileId` on creation. */
  datatype FileMetadata = FileMetadata(
    fileId: u64,
    fileName: string,
    fileHash: string,
    owner: string,
    createdAt: u64,
    encrypted: bool,
    accessControl: u64
  )

  /** One permission grant (`permission == true`) or denial for `user` on `fileId`. */
  datatype AccessControl = AccessControl(fileId: u64, user: string, permission: bool)

  /** The contract's instance storage; `None` is a key that was never written. */
  datatype State = State(
    countFiles: Option<u64>,
    fileMeta: Option<FileMetadata>,
    accessCon: Option<AccessControl>
  )

  /** Storage of a freshly deployed contract: no key written yet. */
  const Fresh: State := State(None, None, None)

  /** The three panics of the contract: "File not found!", "You are not the
      owner of this file." and "Access control not found!". */
  datatype Error = FileNotFound | NotOwner | AccessNotFound

  /** A completed `create_file`: the id it returned and the storage it left. */
  datatype Created = Created(id: u64, state: State)

  /** The counter as `create_file` reads it: an unset key counts as 0. */
  function FileCount(s: State): u64 {
    s.countFiles.UnwrapOr(0)
  }

  /** `create_file`: allocate the next id, stamp the ledger time `now`, and
      overwrite the metadata slot. The increment is not allowed to overflow. */
  function CreateFile(s: State, fileName: string, fileHash: string, owner: string,
                      encrypted: bool, now: u64): (r: Created)
    requires FileCount(s) < U64_MAX
    ensures r.id == FileCount(s) + 1 && r.id != 0
    ensures FileCount(r.state) == r.id
    ensures r.state.fileMeta.Some?
    ensures var file := r.state.fileMeta.value;
      && file.fileId == r.id && file.accessControl == r.id
      && file.fileName == fileName && file.fileHash == fileHash && file.owner == owner
      && file.createdAt == now && file.encrypted == encrypted
    ensures r.state.accessCon == s.accessCon
  {
    var id := FileCount(s) + 1;
    var file := FileMetadata(id, fileName, fileHash, owner, now, encrypted, id);
    Created(id, s.(countFiles := Some(id), fileMeta := Some(file)))
  }

  /** `set_access_control`: panics when no file was ever created, or when
      `fileId` is not the id of the record in the metadata slot (the only
      "ownership" test; no caller identity is checked). Otherwise it overwrites
      the access slot. The returned value is the storage after the call. */
  function SetAccessControl(s: State, fileId: u64, user: string, permission: bool): (r: Result<State, Error>)
    ensures r == Failure(FileNotFound) <==> s.fileMeta.None?
    ensures r == Failure(NotOwner) <==> s.fileMeta.Some? && s.fileMeta.value.fileId != fileId
    ensures r.Success? <==> s.fileMeta.Some? && s.fileMeta.value.fileId == fileId
    ensures r.Success? ==>
      && r.value.accessCon == Some(AccessControl(fileId, user, permission))
      && r.value.countFiles == s.countFiles
      && r.value.fileMeta == s.fileMeta
  {
    match s.fileMeta
    case None => Failure(FileNotFound)
    case Some(file) =>
      if file.fileId == fileId then
        Success(s.(accessCon := Some(AccessControl(fileId, user, permission))))
      else
        Failure(NotOwner)
  }

  /** `get_file_metadata`: the record in the metadata slot. The requested
      `fileId` is only logged, never compared. */
  function GetFileMetadata(s: State, fileId: u64): (r: Result<FileMetadata, Error>)
    ensures r.Failure? <==> s.fileMeta.None?
    ensures r.Failure? ==> r.error == FileNotFound
    ensures r.Success? ==> Some(r.value) == s.fileMeta
  {
    match s.fileMeta
    case None => Failure(FileNotFound)
    case Some(file) => Success(file)
  }

  /** `check_access`: the stored permission when both `fileId` and `user` match
      the entry in the access slot, `false` otherwise; panics when the access
      slot was never written. */
  function CheckAccess(s: State, fileId: u64, user: string): (r: Result<bool, Error>)
    ensures r.Failure? <==> s.accessCon.None?
    ensures r.Failure? ==> r.error == AccessNotFound
    ensures r.Success? ==>
      var entry := s.accessCon.value;
      (r.value <==> entry.fileId == fileId && entry.user == user && entry.permission)
  {
    match s.accessCon
    case None => Failure(AccessNotFound)
    case Some(entry) =>
      if entry.fileId == fileId && entry.user == user then Success(entry.permission)
      else Success(false)
  }
}
