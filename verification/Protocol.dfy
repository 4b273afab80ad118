/** The messages client and server exchange, and the two error-code mappings (src/protocol.rs). */
module Protocol {
  import opened Wrappers

  const TWO_32 := 0x1_0000_0000
  const TWO_63 := 0x8000_0000_0000_0000
  const TWO_64 := 0x1_0000_0000_0000_0000

  type byte = n: int | 0 <= n < 256
  type u32 = n: int | 0 <= n < TWO_32
  type u64 = n: int | 0 <= n < TWO_64
  type i64 = n: int | -TWO_63 <= n < TWO_63

  datatype EntryKind = File | Directory

  datatype FileTimeValue = FileTimeValue(secs: i64, nanos: u32)

  datatype FileAttr = FileAttr(
    kind: EntryKind,
    size: u64,
    allocatedSize: u64,
    created: Option<FileTimeValue>,
    accessed: Option<FileTimeValue>,
    modified: Option<FileTimeValue>,
    changed: Option<FileTimeValue>,
    readonly: bool,
    mode: Option<u32>)

  datatype DirEntry = DirEntry(name: string, attr: FileAttr)

  datatype BasicInfoUpdate = BasicInfoUpdate(
    readonly: Option<bool>,
    creationTime: Option<FileTimeValue>,
    lastAccessTime: Option<FileTimeValue>,
    lastWriteTime: Option<FileTimeValue>,
    changeTime: Option<FileTimeValue>)

  datatype VolumeInfoData = VolumeInfoData(totalSize: u64, freeSize: u64, volumeLabel: string)

  datatype Request =
    | Stat(path: string)
    | Open(path: string)
    | Create(path: string, kind: EntryKind, fileAttributes: u32, allocationSize: u64)
    | ReadDir(path: string)
    | Read(path: string, offset: u64, length: u32)
    | Write(path: string, offset: u64, data: seq<byte>, writeToEof: bool)
    | CanDelete(path: string, kind: EntryKind)
    | RemoveFile(path: string)
    | RemoveDir(path: string)
    | Rename(path: string, newPath: string, replaceIfExists: bool)
    | SetLen(path: string, size: u64, setAllocationSize: bool)
    | Flush(target: Option<string>)
    | SetBasicInfo(path: string, update: BasicInfoUpdate)
    | GetVolumeInfo

  datatype Response =
    | Attr(attr: FileAttr)
    | DirEntries(entries: seq<DirEntry>)
    | Data(bytes: seq<byte>)
    | WriteResult(written: u32, newAttr: FileAttr)
    | VolumeInfo(info: VolumeInfoData)
    | Empty

  datatype ErrorCode =
    | NotFound
    | AlreadyExists
    | PermissionDenied
    | InvalidInput
    | NotDirectory
    | IsDirectory
    | DirectoryNotEmpty
    | Unsupported
    | Unexpected

  datatype RpcError = RpcError(code: ErrorCode, message: string)

  /** The kinds of I/O error the programs tell apart; every other kind is OtherKind. */
  datatype IoKind =
    | KNotFound | KAlreadyExists | KPermissionDenied | KInvalidInput | KNotADirectory
    | KIsADirectory | KDirectoryNotEmpty | KUnsupported | KOther
    | KConnectionAborted | KConnectionRefused | KConnectionReset | KBrokenPipe | KNotConnected
    | KUnexpectedEof | KInvalidData | KTimedOut | KWouldBlock | KFileTooLarge

  function KindOfCode(code: ErrorCode): IoKind {
    match code
    case NotFound => KNotFound
    case AlreadyExists => KAlreadyExists
    case PermissionDenied => KPermissionDenied
    case InvalidInput => KInvalidInput
    case NotDirectory => KNotADirectory
    case IsDirectory => KIsADirectory
    case DirectoryNotEmpty => KDirectoryNotEmpty
    case Unsupported => KUnsupported
    case Unexpected => KOther
  }

  function CodeOfKind(kind: IoKind): ErrorCode {
    match kind
    case KNotFound => NotFound
    case KAlreadyExists => AlreadyExists
    case KPermissionDenied => PermissionDenied
    case KInvalidInput => InvalidInput
    case KNotADirectory => NotDirectory
    case KIsADirectory => IsDirectory
    case KDirectoryNotEmpty => DirectoryNotEmpty
    case KUnsupported => Unsupported
    case _ => Unexpected
  }
}
