/**
  How `cachedfs/main.c` names things in the key-value store, and how it splits paths.
 */
module StoreKeys {
  import opened Prelude
  import opened Text
  import opened Protocol

  type Path = string

  // A path as FUSE hands it over and the protocol can carry it.
  predicate PathOk(p: Path) {
    p != "" && p[0] == '/' && KeyOk(p)
  }

  // ---------- Splitting a path (lines 193-204, 324-335, 394-405 and 131-141) ----------

  function LastSlash(p: Path): (i: nat)
    requires p != "" && p[0] == '/'
    ensures i < |p| && p[i] == '/' && forall j :: i < j < |p| ==> p[j] != '/'
    decreases |p|
  {
    if p[|p| - 1] == '/' then |p| - 1 else LastSlash(p[..|p| - 1])
  }

  function Parent(p: Path): (r: Path)
    requires p != "" && p[0] == '/'
    ensures r != "" && r[0] == '/'
    ensures KeyOk(p) ==> KeyOk(r)
    ensures |p| > 1 ==> |r| < |p|
  {
    if LastSlash(p) == 0 then "/" else p[..LastSlash(p)]
  }

  function Base(p: Path): string
    requires p != "" && p[0] == '/'
  {
    p[LastSlash(p) + 1..]
  }

  function Join(dir: Path, name: string): Path {
    if dir == "/" then "/" + name else dir + "/" + name
  }

  // A directory and a name are what the path made of them is split into.
  lemma SplitsIntoNames(dir: Path, name: string)
    requires dir != "" && dir[0] == '/' && '/' !in name
    ensures Parent(dir + "/" + name) == dir && Base(dir + "/" + name) == name
    ensures Parent("/" + name) == "/" && Base("/" + name) == name
  {
    var p := dir + "/" + name;
    assert p[|dir|] == '/' && forall j :: |dir| < j < |p| ==> p[j] == name[j - |dir| - 1];
    assert LastSlash(p) == |dir|;
    assert LastSlash("/" + name) == 0;
  }

  // Joining what the file system calls the parent with the name readdir reports gives the path
  // back, except for a path of the form "//name".
  lemma JoinParentBase(p: Path)
    requires p != "" && p[0] == '/'
    ensures Join(Parent(p), Base(p)) == p <==> LastSlash(p) != 1
  {
    var i := LastSlash(p);
    assert p == p[..i] + "/" + p[i + 1..];
    if i == 0 {
      assert p[..0] == "";
      assert p == "/" + p[1..];
    } else if i == 1 {
      assert p[..1] == "/";
      assert |Join("/", Base(p))| == |p| - 1;
    }
  }

  // ---------- Keys ----------

  datatype Key =
    | Stats
    | Head(path: Path)           // the header of a file or directory
    | Slot(n: nat, path: Path)   // the n-th child of a directory
    | Bucket(n: nat, path: Path) // the n-th piece of a file
    | Attrib(n: nat, path: Path) // the n-th extended attribute of a file
    | Stray(path: Path)          // what addToParent leaves when the parent is missing

  predicate KeyValid(k: Key) {
    k == Stats || PathOk(k.path)
  }

  function Name(k: Key): string {
    match k
    case Stats => "stats"
    case Head(p) => p
    case Slot(n, p) => Dec(n) + p
    case Bucket(n, p) => "&" + (Dec(n) + p)
    case Attrib(n, p) => "$" + (Dec(n) + p)
    case Stray(p) => "-1" + p
  }

  lemma NamesLiterally(p: Path)
    ensures Name(Stats) == "stats" && Name(Head(p)) == p && Name(Slot(3, p)) == "3" + p
    ensures Name(Bucket(3, p)) == "&3" + p && Name(Attrib(3, p)) == "$3" + p && Name(Stray(p)) == "-1" + p
  {
    assert Dec(3) == "3";
    ConcatAssociates("&", "3", p);
    ConcatAssociates("$", "3", p);
    assert "&" + "3" == "&3" && "$" + "3" == "$3";
  }

  lemma NameOk(k: Key)
    requires KeyValid(k)
    ensures KeyOk(Name(k))
  {
  }

  lemma NumberedOnce(n: nat, p: Path, m: nat, q: Path)
    requires PathOk(p) && PathOk(q) && Dec(n) + p == Dec(m) + q
    ensures n == m && p == q
  {
    var s := Dec(n) + p;
    assert s[|Dec(n)|] == p[0] && s[|Dec(m)|] == q[0];
    assert forall i :: 0 <= i < |Dec(n)| ==> s[i] == Dec(n)[i];
    assert forall i :: 0 <= i < |Dec(m)| ==> s[i] == Dec(m)[i];
    assert |Dec(n)| == |Dec(m)|;
    assert Dec(n) == s[..|Dec(n)|] == Dec(m);
    assert p == s[|Dec(n)|..] == q;
    ParseDecDec(n);
    ParseDecDec(m);
  }

  // No two things share a key.
  lemma NamesDiffer(k: Key, l: Key)
    requires KeyValid(k) && KeyValid(l) && Name(k) == Name(l)
    ensures k == l
  {
    FirstChar(k);
    FirstChar(l);
    match k
    case Stats =>
    case Head(p) =>
    case Slot(n, p) => NumberedOnce(n, p, l.n, l.path);
    case Bucket(n, p) =>
      assert Name(k)[1..] == Dec(n) + p && Name(l)[1..] == Dec(l.n) + l.path;
      NumberedOnce(n, p, l.n, l.path);
    case Attrib(n, p) =>
      assert Name(k)[1..] == Dec(n) + p && Name(l)[1..] == Dec(l.n) + l.path;
      NumberedOnce(n, p, l.n, l.path);
    case Stray(p) =>
      assert Name(k)[2..] == p && Name(l)[2..] == l.path;
  }

  lemma FirstChar(k: Key)
    requires KeyValid(k)
    ensures var c := Name(k)[0];
      match k
      case Stats => c == 's'
      case Head(_) => c == '/'
      case Slot(_, _) => IsDigit(c)
      case Bucket(_, _) => c == '&'
      case Attrib(_, _) => c == '$'
      case Stray(_) => c == '-'
  {
    if k.Slot? {
      assert Name(k)[0] == Dec(k.n)[0];
    }
  }
}
