/**
  src/file.c over an abstract kernel: what openat2 finds is a fixed function of the path, and
  the kernel's table of open descriptors is the state. A descriptor can only be closed while it
  is open, so no descriptor is closed twice.
*/
module FileSystem {
  import opened Wrappers
  import opened Text

  datatype Errno = ENOENT | EACCES | EPERM | EXDEV | ELOOP | EINVAL | OtherErrno

  /** The largest off_t. */
  const OFF_MAX := 0x7FFF_FFFF_FFFF_FFFF

  type Content = s: string | |s| <= OFF_MAX witness ""

  /** What opening a name leads to; a directory remembers what its index.html leads to. */
  datatype Entry =
    | Unopenable(errno: Errno)
    | Unstatable(errno: Errno)
    | Regular(content: Content)
    | Directory(index: Entry)
    | Special

  datatype Stat = StatFailed(errno: Errno) | StatRegular(size: nat) | StatDirectory | StatOther

  class Kernel {
    const root: string -> Entry
    var open: map<int, Entry>

    constructor (root: string -> Entry)
      ensures this.root == root && open == map[]
    {
      this.root, open := root, map[];
    }

    ghost predicate Valid()
      reads `open
    {
      forall fd :: fd in open ==> fd >= 0
    }

    /** A descriptor the kernel has not handed out; any one will do. */
    method Install(entry: Entry) returns (fd: int)
      requires Valid()
      modifies `open
      ensures Valid() && fd >= 0 && fd !in old(open) && open == old(open)[fd := entry]
    {
      fd := 0;
      ghost var left := open.Keys;
      while fd in open
        invariant fd >= 0 && left <= open.Keys
        invariant forall k :: k in open && k >= fd ==> k in left
        decreases left
      {
        left := left - {fd};
        fd := fd + 1;
      }
      open := open[fd := entry];
    }

    /** openat2, for a name that leads to `entry`. */
    method Openat2(entry: Entry) returns (fd: int, errno: Errno)
      requires Valid()
      modifies `open
      ensures Valid()
      ensures entry.Unopenable? ==> fd == -1 && errno == entry.errno && open == old(open)
      ensures !entry.Unopenable? ==> fd >= 0 && fd !in old(open) && open == old(open)[fd := entry]
    {
      errno := OtherErrno;
      if entry.Unopenable? {
        fd, errno := -1, entry.errno;
      } else {
        fd := Install(entry);
      }
    }

    method Fstat(fd: int) returns (stat: Stat)
      requires fd in open
      ensures match open[fd]
              case Regular(content) => stat == StatRegular(|content|)
              case Directory(_) => stat == StatDirectory
              case Unstatable(e) => stat == StatFailed(e)
              case _ => stat == StatOther
    {
      match open[fd]
      case Regular(content) => stat := StatRegular(|content|);
      case Directory(_) => stat := StatDirectory;
      case Unstatable(e) => stat := StatFailed(e);
      case _ => stat := StatOther;
    }

    method Close(fd: int)
      requires Valid() && fd in open
      modifies `open
      ensures Valid() && open == old(open) - {fd}
    {
      open := open - {fd};
    }
  }

  // ---------------------------------------------------------------- meaning

  function StripSlashes(path: string): string {
    if path != "" && path[0] == '/' then StripSlashes(path[1..]) else path
  }

  /** EXDEV and ELOOP are reported as EACCES. */
  function Reported(errno: Errno): Errno {
    if errno == EXDEV || errno == ELOOP then EACCES else errno
  }

  function OpenIndex(index: Entry): Result<Content, Errno> {
    match index
    case Unopenable(e) => Err(Reported(e))
    case Unstatable(e) => Err(e)
    case Regular(content) => Ok(content)
    case _ => Err(EACCES)
  }

  function OpenFound(entry: Entry): Result<Content, Errno> {
    match entry
    case Directory(index) => OpenIndex(index)
    case _ => OpenIndex(entry)
  }

  function Resolve(root: string -> Entry, name: string): Entry {
    root(name)
  }

  /** The file a request path is answered with, or errno. */
  function Lookup(root: string -> Entry, path: string): Result<Content, Errno> {
    if path == "" || path[0] != '/' then Err(EINVAL)
    else
      var relative := StripSlashes(path);
      OpenFound(Resolve(root, if relative == "" then "." else relative))
  }

  // ---------------------------------------------------------------- the C function

  datatype OpenFile = OpenFile(fd: int, size: nat)

  /** Exactly the descriptor handed to the caller has been added to the open ones. */
  ghost predicate OpensOnly(
    before: map<int, Entry>, found: Result<Content, Errno>, r: Result<OpenFile, Errno>, after: map<int, Entry>)
  {
    match found
    case Err(e) => r == Err(e) && after == before
    case Ok(content) =>
      && r.Ok? && r.value.size == |content|
      && r.value.fd >= 0 && r.value.fd !in before
      && after == before[r.value.fd := Regular(content)]
  }

  /** The directory branch of file_open_path: `fd` is the directory. */
  method OpenIndexOf(kernel: Kernel, fd: int) returns (r: Result<OpenFile, Errno>)
    requires kernel.Valid() && fd in kernel.open && kernel.open[fd].Directory?
    modifies kernel`open
    ensures kernel.Valid()
    ensures OpensOnly(old(kernel.open) - {fd}, OpenIndex(old(kernel.open)[fd].index), r, kernel.open)
    ensures r.Ok? ==> r.value.fd !in old(kernel.open)
  {
    var indexFd, errno := kernel.Openat2(kernel.open[fd].index);
    if indexFd < 0 {
      kernel.Close(fd);
      return Err(if errno == EXDEV || errno == ELOOP then EACCES else errno);
    }
    kernel.Close(fd);
    var stat := kernel.Fstat(indexFd);
    if !stat.StatRegular? {
      kernel.Close(indexFd);
      assert kernel.open == old(kernel.open) - {fd};
      return Err(if stat.StatFailed? then stat.errno else EACCES);
    }
    return Ok(OpenFile(indexFd, stat.size));
  }

  /** file_open_path */
  method FileOpenPath(kernel: Kernel, requestPath: string) returns (r: Result<OpenFile, Errno>)
    requires kernel.Valid() && IsCString(requestPath)
    modifies kernel`open
    ensures kernel.Valid()
    ensures OpensOnly(old(kernel.open), Lookup(kernel.root, CString(requestPath)), r, kernel.open)
  {
    if requestPath[0] != '/' {
      return Err(EINVAL);
    }
    var relative := requestPath;
    while relative[0] == '/'
      invariant kernel.open == old(kernel.open)
      invariant IsCString(relative)
      invariant StripSlashes(CString(relative)) == StripSlashes(CString(requestPath))
      decreases |relative|
    {
      CStringAdvance(relative, 1);
      relative := relative[1..];
    }
    assert StripSlashes(CString(requestPath)) == CString(relative);
    if relative[0] == NUL {
      relative := "." + [NUL];
      CStringUnique(relative, ".");
    }
    r := OpenEntry(kernel, Resolve(kernel.root, CString(relative)));
  }

  /** file_open_path from its first openat2 on. */
  method OpenEntry(kernel: Kernel, entry: Entry) returns (r: Result<OpenFile, Errno>)
    requires kernel.Valid()
    modifies kernel`open
    ensures kernel.Valid()
    ensures OpensOnly(old(kernel.open), OpenFound(entry), r, kernel.open)
  {
    var fd, errno := kernel.Openat2(entry);
    if fd < 0 {
      return Err(if errno == EXDEV || errno == ELOOP then EACCES else errno);
    }
    var stat := kernel.Fstat(fd);
    match stat
    case StatRegular(size) =>
      return Ok(OpenFile(fd, size));
    case StatDirectory =>
      r := OpenIndexOf(kernel, fd);
      assert old(kernel.open)[fd := entry] - {fd} == old(kernel.open);
    case StatFailed(e) =>
      kernel.Close(fd);
      r := Err(e);
    case StatOther =>
      kernel.Close(fd);
      r := Err(EACCES);
  }
}
