/**
  `cachedfs/memcache.c`: the commands it sends and the replies it takes apart, in
  memcached's text protocol.  The server itself is an ideal map from keys to values; what it
  understands of a command and what it answers are the functions below.
 */
module Protocol {
  import opened Prelude
  import opened CBytes
  import opened Text

  type Store = map<string, string>

  // A key as the protocol can carry it.
  predicate KeyOk(key: string) {
    key != "" && forall i :: 0 <= i < |key| ==> key[i] != ' ' && key[i] != '\r' && key[i] != '\n'
  }

  // Every value starts with its own length: struct bucket_struct { int cur_size; }.
  predicate Framed(val: string) {
    |val| >= 4 && Unle(val[..4]) == |val|
  }

  // ---------- Commands ----------

  // The length of the value, the value, and the two line ends.
  function Sized(val: string): string {
    Dec(|val|) + ['\r'] + ("\n" + (val + "\r\n"))
  }

  // cache_set, lines 60-71; flags and expiry time are 0.
  function SetCommand(key: string, val: string): string {
    "set" + [' '] + (key + [' '] + ("0" + [' '] + ("0" + [' '] + Sized(val))))
  }

  function GetCommand(key: string): string {
    "get " + (key + "\r" + "\n")
  }

  function DeleteCommand(key: string): string {
    "delete " + (key + "\r" + "\n")
  }

  // The server's reading of a command: the first word, the fields, and for `set` as many bytes
  // of data as the last field says, whatever they are.
  function ServerReadsSized(s: string): Option<string> {
    var bytes, rest := Before(s, '\r'), Behind(s, '\r');
    if !AllDigits(bytes) then None
    else
      var n := ParseDec(bytes);
      if n < 0 || |rest| != n + 3 || rest[0] != '\n' || rest[n + 1..] != "\r\n" then None
      else Some(rest[1..n + 1])
  }

  function ServerReadsSet(cmd: string): Option<(string, string)> {
    if Before(cmd, ' ') != "set" then None
    else
      var fields := Behind(cmd, ' ');
      match ServerReadsSized(Behind(Behind(Behind(fields, ' '), ' '), ' '))
      case Some(val) => Some((Before(fields, ' '), val))
      case None => None
  }

  function ServerReadsKey(cmd: string, verb: string): Option<string> {
    if Before(cmd, ' ') != verb then None else Some(Before(Behind(cmd, ' '), '\r'))
  }

  lemma Field(a: string, c: char, b: string)
    requires c !in a
    ensures Before(a + [c] + b, c) == a && Behind(a + [c] + b, c) == b
  {
    CutAt(a, c, b);
  }

  lemma SizedIsUnderstood(val: string)
    ensures ServerReadsSized(Sized(val)) == Some(val)
  {
    var rest := "\n" + (val + "\r\n");
    Field(Dec(|val|), '\r', rest);
    ParseDecDec(|val|);
    assert rest[1..|val| + 1] == val && rest[|val| + 1..] == "\r\n";
  }

  // The server gets the key and the value cache_set was given, even if the value contains
  // line ends, NULs or protocol words.
  lemma SetIsUnderstood(key: string, val: string)
    requires KeyOk(key)
    ensures ServerReadsSet(SetCommand(key, val)) == Some((key, val))
  {
    var r4 := Sized(val);
    var r3 := "0" + [' '] + r4;
    var r2 := "0" + [' '] + r3;
    Field("set", ' ', key + [' '] + r2);
    Field(key, ' ', r2);
    Field("0", ' ', r3);
    Field("0", ' ', r4);
    SizedIsUnderstood(val);
  }

  lemma KeyIsUnderstood(key: string)
    requires KeyOk(key)
    ensures ServerReadsKey(GetCommand(key), "get") == Some(key)
    ensures ServerReadsKey(DeleteCommand(key), "delete") == Some(key)
  {
    assert GetCommand(key) == "get" + [' '] + (key + "\r" + "\n");
    assert DeleteCommand(key) == "delete" + [' '] + (key + "\r" + "\n");
    Field("get", ' ', key + "\r" + "\n");
    Field("delete", ' ', key + "\r" + "\n");
    Field(key, '\r', "\n");
  }

  // The commands for one key, character by character.
  lemma CommandsLiterally()
    ensures SetCommand("/a", "xy\n") == "set /a 0 0 3\r\nxy\n\r\n"
    ensures GetCommand("/a") == "get /a\r\n" && DeleteCommand("/a") == "delete /a\r\n"
    ensures GetReply(map["/a" := "xy\n"], "/a") == "VALUE /a 0 3\r\nxy\n\r\nEND\r\n"
    ensures GetReply(map[], "/a") == "END\r\n"
  {
    assert Dec(3) == "3";
  }

  // ---------- Replies ----------

  function Hit(key: string, val: string): string {
    "VALUE " + key + " 0 " + Dec(|val|) + "\r" + "\n" + (val + "\r\nEND\r\n")
  }

  function GetReply(store: Store, key: string): string {
    if key in store then Hit(key, store[key]) else "END\r\n"
  }

  // cache_get, lines 32-45: past the first line end, as many bytes as the first int there says.
  method TakeApart(ans: string, ghost store: Store, ghost key: string) returns (r: Option<string>)
    requires KeyOk(key) && ans == GetReply(store, key) && (key in store ==> Framed(store[key]))
    ensures r == if key in store then Some(store[key]) else None
  {
    if key in store {
      HitShape(key, store[key]);
    }
    if |ans| >= 5 && ans[..5] == "VALUE" {
      ghost var first := |Before(ans, '\n')|;
      var pos := 5;
      while ans[pos] != '\n'
        invariant 5 <= pos <= first < |ans|
        decreases |ans| - pos
      {
        pos := pos + 1;
      }
      pos := pos + 1;
      assert pos == first + 1;
      ValueShape(ans, pos, store[key]);
      var len := Unle(ans[pos..pos + 4]);
      r := Some(ans[pos..pos + len]);
    } else {
      r := None;
    }
  }

  lemma ValueShape(ans: string, pos: nat, val: string)
    requires pos <= |ans| && ans[pos..] == val + "\r\nEND\r\n" && Framed(val)
    ensures pos + |val| <= |ans| && ans[pos..pos + 4] == val[..4] && ans[pos..pos + |val|] == val
  {
    assert ans[pos..pos + |val|] == ans[pos..][..|val|];
    assert ans[pos..pos + 4] == ans[pos..][..4];
  }

  lemma HitShape(key: string, val: string)
    requires KeyOk(key)
    ensures var ans := Hit(key, val);
      && |ans| >= 5 && ans[..5] == "VALUE"
      && 5 <= |Before(ans, '\n')| < |ans| && Behind(ans, '\n') == val + "\r\nEND\r\n"
      && ans[|Before(ans, '\n')| + 1..] == val + "\r\nEND\r\n"
  {
    var line := "VALUE " + key + " 0 " + Dec(|val|) + "\r";
    var tail := val + "\r\nEND\r\n";
    assert forall i :: 0 <= i < |Dec(|val|)| ==> Dec(|val|)[i] != '\n';
    assert '\n' !in line;
    assert Hit(key, val) == line + ['\n'] + tail;
    Field(line, '\n', tail);
    assert line[..5] == "VALUE";
  }
}
