/**
 * The account service of services/auth.py: user records kept in a JSON
 * document (a map from username to record), registration, login, lookup,
 * profile update with the avatar naming rule, and the process-wide cell that
 * holds the signed-in user.
 */
module Auth {
  import opened Wrappers

  // ---------------------------------------------------------------------------
  // Text helpers

  /** Python's `str.isspace` for one character. */
  predicate IsSpace(c: char) {
    || c == ' '
    || '\t' <= c <= '\r'
    || '\U{1C}' <= c <= '\U{1F}'
    || c == '\U{85}' || c == '\U{A0}' || c == '\U{1680}'
    || '\U{2000}' <= c <= '\U{200A}'
    || c == '\U{2028}' || c == '\U{2029}' || c == '\U{202F}' || c == '\U{205F}' || c == '\U{3000}'
  }

  predicate IsBlank(s: string) {
    forall k | 0 <= k < |s| :: IsSpace(s[k])
  }

  /** `str.lstrip()`: drop the leading whitespace. */
  function StripLeft(s: string): (r: string)
    ensures |r| <= |s| && r == s[|s| - |r|..]
    ensures r == [] <==> IsBlank(s)
    ensures r != [] ==> !IsSpace(r[0])
  {
    if s != [] && IsSpace(s[0]) then
      var r := StripLeft(s[1..]);
      assert IsBlank(s) <==> IsBlank(s[1..]) by {
        assert forall k | 0 < k < |s| :: s[k] == s[1..][k - 1];
      }
      r
    else s
  }

  /** `str.rstrip()`: drop the trailing whitespace. */
  function StripRight(s: string): (r: string)
    ensures |r| <= |s| && r == s[..|r|]
    ensures r == [] <==> IsBlank(s)
    ensures r != [] ==> !IsSpace(r[|r| - 1])
  {
    if s != [] && IsSpace(s[|s| - 1]) then
      var r := StripRight(s[..|s| - 1]);
      assert IsBlank(s) <==> IsBlank(s[..|s| - 1]) by {
        assert forall k | 0 <= k < |s| - 1 :: s[k] == s[..|s| - 1][k];
      }
      r
    else s
  }

  /** `lstrip` removes whitespace only: every dropped character is a space. */
  lemma {:induction false} StripLeftDropsBlanks(s: string)
    ensures forall k | 0 <= k < |s| - |StripLeft(s)| :: IsSpace(s[k])
  {
    if s != [] && IsSpace(s[0]) {
      StripLeftDropsBlanks(s[1..]);
      assert forall k | 0 < k < |s| :: s[k] == s[1..][k - 1];
    }
  }

  /** `rstrip` removes whitespace only: every dropped character is a space. */
  lemma {:induction false} StripRightDropsBlanks(s: string)
    ensures forall k | |StripRight(s)| <= k < |s| :: IsSpace(s[k])
  {
    if s != [] && IsSpace(s[|s| - 1]) {
      StripRightDropsBlanks(s[..|s| - 1]);
      assert forall k | 0 <= k < |s| - 1 :: s[k] == s[..|s| - 1][k];
    }
  }

  /** `str.strip()`: drop leading and trailing whitespace; only blank text strips to "". */
  function Strip(s: string): (r: string)
    ensures r == [] <==> IsBlank(s)
    ensures r != [] ==> !IsSpace(r[0]) && !IsSpace(r[|r| - 1])
  {
    var left := StripLeft(s);
    var r := StripRight(left);
    assert IsBlank(left) <==> IsBlank(s) by {
      if !IsBlank(s) {
        assert left != [];
        assert !IsSpace(left[0]);
      }
      if !IsBlank(left) {
        var k :| 0 <= k < |left| && !IsSpace(left[k]);
        assert left[k] == s[|s| - |left| + k];
      }
    }
    r
  }

  /** Stripping removes whitespace and nothing else: the result sits between a blank prefix and a blank suffix. */
  lemma StripRemovesOnlyBlanks(s: string)
    ensures exists i, j | 0 <= i <= j <= |s| :: Strip(s) == s[i..j] && IsBlank(s[..i]) && IsBlank(s[j..])
  {
    var left := StripLeft(s);
    var r := StripRight(left);
    StripLeftDropsBlanks(s);
    StripRightDropsBlanks(left);
    BetweenBlanks(s, left, r);
  }

  /** A prefix of a suffix of `s`, each cut off at blanks, lies between a blank prefix and a blank suffix of `s`. */
  lemma BetweenBlanks(s: string, left: string, r: string)
    requires |left| <= |s| && left == s[|s| - |left|..]
    requires |r| <= |left| && r == left[..|r|]
    requires forall k | 0 <= k < |s| - |left| :: IsSpace(s[k])
    requires forall k | |r| <= k < |left| :: IsSpace(left[k])
    ensures exists i, j | 0 <= i <= j <= |s| :: r == s[i..j] && IsBlank(s[..i]) && IsBlank(s[j..])
  {
    var i := |s| - |left|;
    var j := i + |r|;
    assert r == s[i..j];
    assert forall k | 0 <= k < i :: s[..i][k] == s[k];
    assert forall k | 0 <= k < |s| - j :: s[j..][k] == left[|r| + k];
    assert IsBlank(s[..i]) && IsBlank(s[j..]);
  }

  /** Text that neither starts nor ends with whitespace is left as it is. */
  lemma StripKeepsTrimmed(s: string)
    requires s != [] && !IsSpace(s[0]) && !IsSpace(s[|s| - 1])
    ensures Strip(s) == s
  {
    assert StripLeft(s) == s;
    assert StripRight(s) == s;
  }

  /** Stripping twice is stripping once. */
  lemma StripIdempotent(s: string)
    ensures Strip(Strip(s)) == Strip(s)
  {
    var r := Strip(s);
    if r != [] {
      assert StripLeft(r) == r;
      assert StripRight(r) == r;
    }
  }

  /** Last position of `c` in `s`, or -1 (`str.rfind`). */
  function LastIndex(s: string, c: char): (i: int)
    ensures -1 <= i < |s|
    ensures i >= 0 ==> s[i] == c
    ensures forall k | i < k < |s| :: s[k] != c
  {
    if s == [] then -1
    else if s[|s| - 1] == c then |s| - 1
    else LastIndex(s[..|s| - 1], c)
  }

  /** `LastIndex` is determined by its contract. */
  lemma {:induction false} LastIndexIs(s: string, c: char, i: int)
    requires -1 <= i < |s|
    requires i >= 0 ==> s[i] == c
    requires forall k | i < k < |s| :: s[k] != c
    ensures LastIndex(s, c) == i
  {
    if s != [] && s[|s| - 1] != c {
      LastIndexIs(s[..|s| - 1], c, i);
    }
  }

  /** One character of `str.lower()` on ASCII: an upper-case letter becomes its lower-case letter. */
  function LowerChar(c: char): char {
    if 'A' <= c <= 'Z' then (c as int + 32) as char else c
  }

  /** `str.lower()` on ASCII: each character lowered on its own, nothing added or dropped. */
  function LowerAscii(s: string): (r: string)
    ensures |r| == |s|
    ensures forall k | 0 <= k < |s| :: r[k] == LowerChar(s[k])
    ensures forall k | 0 <= k < |r| :: !('A' <= r[k] <= 'Z')
  {
    if s == [] then []
    else
      var rest := LowerAscii(s[1..]);
      assert forall k | 1 <= k < |s| :: s[k] == s[1..][k - 1];
      [LowerChar(s[0])] + rest
  }

  // ---------------------------------------------------------------------------
  // Records

  /** A value inside a stored record: the documents hold strings and null. */
  datatype Json = JStr(s: string) | JNull

  type Record = map<string, Json>

  /** The users document: username to record. */
  type Db = map<string, Record>

  datatype User = User(username: string, displayName: string, passwordHash: string, avatar: Option<string>)

  /** `d.get(key)`. */
  function Get(d: Record, key: string): Option<Json> {
    if key in d then Some(d[key]) else None
  }

  /** Python truthiness of `d.get(key)`: present, a string, and not empty. */
  predicate Truthy(v: Option<Json>) {
    v.Some? && v.value.JStr? && v.value.s != ""
  }

  /** `User.to_dict`. */
  function ToDict(u: User): (d: Record)
    ensures d.Keys == {"username", "display_name", "password_hash", "avatar"}
    ensures forall key | key in d && key != "avatar" :: d[key].JStr?
    ensures d["avatar"].JNull? <==> u.avatar.None?
  {
    map[
      "username" := JStr(u.username),
      "display_name" := JStr(u.displayName),
      "password_hash" := JStr(u.passwordHash),
      "avatar" := if u.avatar.Some? then JStr(u.avatar.value) else JNull]
  }

  /**
   * `User.from_dict`: None where a record has no string `username` or
   * `password_hash`. The display name is the first non-empty of
   * `display_name`, `nickname`, `username`.
   */
  function FromDict(d: Record): (u: Option<User>)
    ensures u.Some? <==>
      && Get(d, "username").Some? && Get(d, "username").value.JStr?
      && Get(d, "password_hash").Some? && Get(d, "password_hash").value.JStr?
  {
    var name := Get(d, "username");
    var hash := Get(d, "password_hash");
    if name.None? || !name.value.JStr? || hash.None? || !hash.value.JStr? then None
    else
      var display :=
        if Truthy(Get(d, "display_name")) then Get(d, "display_name").value.s
        else if Truthy(Get(d, "nickname")) then Get(d, "nickname").value.s
        else name.value.s;
      var avatar := if Get(d, "avatar").Some? && Get(d, "avatar").value.JStr? then Some(Get(d, "avatar").value.s) else None;
      Some(User(name.value.s, display, hash.value.s, avatar))
  }

  /** Each field of `to_dict` holds the matching attribute of the user. */
  lemma ToDictFields(u: User)
    ensures ToDict(u)["username"] == JStr(u.username)
    ensures ToDict(u)["display_name"] == JStr(u.displayName)
    ensures ToDict(u)["password_hash"] == JStr(u.passwordHash)
    ensures u.avatar.Some? ==> ToDict(u)["avatar"] == JStr(u.avatar.value)
  {
  }

  /** A user survives `to_dict` then `from_dict`, except that an empty display name falls back to the username. */
  lemma FromDictToDict(u: User)
    ensures FromDict(ToDict(u)) == Some(if u.displayName != "" then u else u.(displayName := u.username))
  {
  }

  /** The display-name fallback chain of `from_dict`. */
  lemma DisplayNameFallback(d: Record)
    requires FromDict(d).Some?
    ensures Truthy(Get(d, "display_name")) ==> FromDict(d).value.displayName == d["display_name"].s
    ensures !Truthy(Get(d, "display_name")) && Truthy(Get(d, "nickname")) ==>
              FromDict(d).value.displayName == d["nickname"].s
    ensures !Truthy(Get(d, "display_name")) && !Truthy(Get(d, "nickname")) ==>
              FromDict(d).value.displayName == FromDict(d).value.username
  {
  }

  // ---------------------------------------------------------------------------
  // Avatar naming

  /** `Path(p).name`: the text after the last `/`, which is all of `p` when it has none. */
  function FileName(p: string): (r: string)
    ensures |r| <= |p| && r == p[|p| - |r|..]
    ensures '/' !in r
    ensures |r| < |p| ==> p[|p| - |r| - 1] == '/'
  {
    NoneAfterLast(p, '/');
    p[LastIndex(p, '/') + 1..]
  }

  /** Nothing after the last `c` is a `c`. */
  lemma NoneAfterLast(s: string, c: char)
    ensures c !in s[LastIndex(s, c) + 1..]
  {
    var i := LastIndex(s, c);
    var r := s[i + 1..];
    forall k | 0 <= k < |r|
      ensures r[k] != c
    {
      assert r[k] == s[i + 1 + k];
    }
  }

  /** `Path.suffix`: from the last dot on, unless that dot leads the name or ends it. */
  function Suffix(name: string): (r: string)
    ensures r != "" ==> 2 <= |r| < |name| && r == name[|name| - |r|..] && r[0] == '.' && '.' !in r[1..]
  {
    var i := LastIndex(name, '.');
    if 0 < i < |name| - 1 then
      NoneAfterLast(name, '.');
      assert name[i..][1..] == name[i + 1..];
      name[i..]
    else ""
  }

  /** A name has no suffix exactly when every dot strictly inside it has another dot after it. */
  lemma SuffixNoneExactly(name: string)
    ensures Suffix(name) == "" <==>
      forall i | 0 < i < |name| - 1 && name[i] == '.' :: exists j | i < j < |name| :: name[j] == '.'
  {
    var last := LastIndex(name, '.');
    if Suffix(name) != "" {
      assert 0 < last < |name| - 1 && name[last] == '.';
      assert !exists j | last < j < |name| :: name[j] == '.';
    }
  }

  /**
   * `src.suffix.lower() or ".png"`: the lower-cased suffix of the file name,
   * or ".png" exactly when it has none. Either way a dot followed by at
   * least one character, with no further dot, no `/` and no upper-case
   * ASCII letter.
   */
  function AvatarExtension(src: string): (ext: string)
    ensures Suffix(FileName(src)) == "" ==> ext == ".png"
    ensures Suffix(FileName(src)) != "" ==> ext == LowerAscii(Suffix(FileName(src)))
    ensures |ext| >= 2 && ext[0] == '.'
    ensures forall k | 1 <= k < |ext| :: ext[k] != '.' && ext[k] != '/'
    ensures forall k | 0 <= k < |ext| :: !('A' <= ext[k] <= 'Z')
  {
    var name := FileName(src);
    var suffix := Suffix(name);
    if suffix == "" then
      PngShape();
      ".png"
    else
      LoweredSuffixShape(name);
      LowerAscii(suffix)
  }

  /** The fallback extension has the same shape as a lower-cased suffix. */
  lemma PngShape()
    ensures |".png"| >= 2 && ".png"[0] == '.'
    ensures forall k | 1 <= k < |".png"| :: ".png"[k] != '.' && ".png"[k] != '/'
    ensures forall k | 0 <= k < |".png"| :: !('A' <= ".png"[k] <= 'Z')
  {
  }

  /** The lower-cased suffix of a name without `/` is a dot and at least one more character, none of them a dot or `/`. */
  lemma LoweredSuffixShape(name: string)
    requires '/' !in name && Suffix(name) != ""
    ensures var ext := LowerAscii(Suffix(name));
            && |ext| >= 2 && ext[0] == '.'
            && forall k | 1 <= k < |ext| :: ext[k] != '.' && ext[k] != '/'
  {
    LowerTailKeepsOut(name, Suffix(name));
  }

  /** Lower-casing the tail of a name without `/` whose dots are all at its front adds no dot and no `/`. */
  lemma LowerTailKeepsOut(name: string, tail: string)
    requires '/' !in name
    requires |tail| <= |name| && tail == name[|name| - |tail|..]
    requires tail != [] && '.' !in tail[1..]
    ensures forall k | 1 <= k < |tail| :: LowerAscii(tail)[k] != '.' && LowerAscii(tail)[k] != '/'
  {
    var ext := LowerAscii(tail);
    forall k | 1 <= k < |tail|
      ensures ext[k] != '.' && ext[k] != '/'
    {
      assert tail[k] == tail[1..][k - 1];
      assert tail[k] == name[|name| - |tail| + k];
    }
  }

  /** A path that starts at the root: joining it to a directory discards the directory. */
  predicate Absolute(p: string) {
    p != [] && p[0] == '/'
  }

  /**
   * `AVATAR_DIR / f"{username}{ext}"`, as text: the avatar directory, `/`
   * and the name, unless the username starts with `/`, in which case
   * `pathlib` drops the directory and the name itself is the path. For a username without `/`
   * the file name is the username followed by the extension, whatever the
   * source file or its directories were called.
   */
  function AvatarPath(avatarDir: string, username: string, src: string): (p: string)
    ensures Absolute(username) ==> p == username + AvatarExtension(src)
    ensures !Absolute(username) ==> |p| > |avatarDir| + 1 && p[..|avatarDir| + 1] == avatarDir + "/"
    ensures !Absolute(username) ==> p[|avatarDir| + 1..] == username + AvatarExtension(src)
    ensures '/' !in username ==> FileName(p) == username + AvatarExtension(src)
  {
    var ext := AvatarExtension(src);
    var name := username + ext;
    if Absolute(username) then name
    else
      assert '/' !in username ==> FileName(avatarDir + "/" + name) == name by {
        if '/' !in username {
          NameWithExtensionHasNoSlash(username, src);
          FileNameAfterLastSlash(avatarDir, name);
        }
      }
      JoinUnder(avatarDir, name);
      avatarDir + "/" + name
  }

  /** Joining under a directory keeps the directory and its `/` in front. */
  lemma JoinUnder(dir: string, name: string)
    ensures |dir + "/" + name| == |dir| + 1 + |name|
    ensures (dir + "/" + name)[..|dir| + 1] == dir + "/"
    ensures (dir + "/" + name)[|dir| + 1..] == name
  {
  }

  /** A name without `/` put under a directory is the file name of the result. */
  lemma FileNameAfterLastSlash(dir: string, name: string)
    requires forall k | 0 <= k < |name| :: name[k] != '/'
    ensures FileName(dir + "/" + name) == name
  {
    var p := dir + "/" + name;
    assert forall k | |dir| < k < |p| :: p[k] == name[k - |dir| - 1];
    LastIndexIs(p, '/', |dir|);
    assert p[|dir| + 1..] == name;
  }

  /**
   * `_copy_avatar`: the destination path, or None when the source is missing
   * or the copy fails (`copied` is what the file system reports).
   */
  function CopyAvatar(avatarDir: string, username: string, src: string, copied: bool): (r: Option<string>)
    ensures r.Some? <==> copied
    ensures copied && Absolute(username) ==> r.value == username + AvatarExtension(src)
    ensures copied && !Absolute(username) ==> |r.value| > |avatarDir| + 1 && r.value[..|avatarDir| + 1] == avatarDir + "/"
    ensures copied && !Absolute(username) ==> r.value[|avatarDir| + 1..] == username + AvatarExtension(src)
    ensures copied && '/' !in username ==> FileName(r.value) == username + AvatarExtension(src)
  {
    if copied then Some(AvatarPath(avatarDir, username, src)) else None
  }

  /**
   * A `/` inside a username joins further path components to the avatar
   * directory: for `kim/lee` the text is the directory, `kim`, then `lee`
   * plus the extension. Whatever comes before the last `/`, the file is
   * named after what follows it.
   */
  lemma AvatarPathSlashInUsername(avatarDir: string, first: string, last: string, src: string)
    requires '/' !in last
    ensures !Absolute(first + "/" + last) ==>
              AvatarPath(avatarDir, first + "/" + last, src) == (avatarDir + "/" + first) + "/" + (last + AvatarExtension(src))
    ensures FileName(AvatarPath(avatarDir, first + "/" + last, src)) == last + AvatarExtension(src)
  {
    var ext := AvatarExtension(src);
    var username := first + "/" + last;
    NameWithExtensionHasNoSlash(last, src);
    if Absolute(username) {
      assert AvatarPath(avatarDir, username, src) == username + ext;
      RegroupPath("", first, last, ext);
      FileNameAfterLastSlash(first, last + ext);
    } else {
      assert AvatarPath(avatarDir, username, src) == avatarDir + "/" + (username + ext);
      RegroupPath(avatarDir, first, last, ext);
      FileNameAfterLastSlash(avatarDir + "/" + first, last + ext);
    }
  }

  lemma RegroupPath(dir: string, first: string, last: string, ext: string)
    ensures dir + "/" + ((first + "/" + last) + ext) == (dir + "/" + first) + "/" + (last + ext)
    ensures (first + "/" + last) + ext == first + "/" + (last + ext)
  {
  }

  lemma NameWithExtensionHasNoSlash(name: string, src: string)
    requires '/' !in name
    ensures forall k | 0 <= k < |name + AvatarExtension(src)| :: (name + AvatarExtension(src))[k] != '/'
  {
    var ext := AvatarExtension(src);
    forall k | 0 <= k < |name + ext|
      ensures (name + ext)[k] != '/'
    {
      if k < |name| {
        assert (name + ext)[k] == name[k];
      } else {
        assert (name + ext)[k] == ext[k - |name|];
      }
    }
  }

  /** The suffix of the file name is kept, lower-cased, whatever the directories are called. */
  lemma AvatarExtensionLowersSuffix()
    ensures AvatarExtension("C:/pictures/Me.JPG") == ".jpg"
  {
    LastIndexIs("C:/pictures/Me.JPG", '/', 11);
    assert FileName("C:/pictures/Me.JPG") == "Me.JPG";
    LastIndexIs("Me.JPG", '.', 2);
    assert Suffix("Me.JPG") == ".JPG";
    LowerJpg();
  }

  lemma LowerJpg()
    ensures LowerAscii(".JPG") == ".jpg"
  {
    var lowered := LowerAscii(".JPG");
    assert lowered[1] == 'j' && lowered[2] == 'p' && lowered[3] == 'g';
  }

  /** Only the last suffix counts. */
  lemma AvatarExtensionLastSuffix()
    ensures AvatarExtension("archive.tar.gz") == ".gz"
  {
    LastIndexIs("archive.tar.gz", '/', -1);
    assert FileName("archive.tar.gz") == "archive.tar.gz";
    LastIndexIs("archive.tar.gz", '.', 11);
    assert Suffix("archive.tar.gz") == ".gz";
    var lowered := LowerAscii(".gz");
    assert lowered == ".gz";
  }

  /** A name without a dot falls back to ".png". */
  lemma AvatarExtensionNoDot()
    ensures AvatarExtension("pictures/me") == ".png"
  {
    LastIndexIs("pictures/me", '/', 8);
    assert FileName("pictures/me") == "me";
    LastIndexIs("me", '.', -1);
  }

  /** A leading dot (a hidden file) is no suffix: ".png". */
  lemma AvatarExtensionHiddenFile()
    ensures AvatarExtension("pictures/.face") == ".png"
  {
    LastIndexIs("pictures/.face", '/', 8);
    assert FileName("pictures/.face") == ".face";
    LastIndexIs(".face", '.', 0);
  }

  /** A trailing dot is no suffix either: ".png". */
  lemma AvatarExtensionTrailingDot()
    ensures AvatarExtension("me.") == ".png"
  {
    LastIndexIs("me.", '/', -1);
    LastIndexIs("me.", '.', 2);
  }

  // ---------------------------------------------------------------------------
  // Operations on the document

  /** The new document after `register`, or None where it returns False. */
  function Registered(db: Db, hash: string -> string, username: string, password: string, displayName: string): Option<Db> {
    var name := Strip(username);
    if name == "" || password == "" || displayName == "" then None
    else if name in db then None
    else Some(db[name := ToDict(User(name, Strip(displayName), hash(password), None))])
  }

  /** Registration refuses a blank username or an empty password or display name. */
  lemma RegisterRejectsEmpty(db: Db, hash: string -> string, username: string, password: string, displayName: string)
    requires IsBlank(username) || password == "" || displayName == ""
    ensures Registered(db, hash, username, password, displayName) == None
  {
  }

  /** Registration refuses a taken username. */
  lemma RegisterRejectsTaken(db: Db, hash: string -> string, username: string, password: string, displayName: string)
    requires Strip(username) in db
    ensures Registered(db, hash, username, password, displayName) == None
  {
  }

  /**
   * A successful registration adds exactly one record, under the stripped
   * username, and keeps every other record.
   */
  lemma RegisterAddsOneRecord(db: Db, hash: string -> string, username: string, password: string, displayName: string)
    requires Registered(db, hash, username, password, displayName).Some?
    ensures var after := Registered(db, hash, username, password, displayName).value;
            var name := Strip(username);
            && name != "" && name !in db
            && after.Keys == db.Keys + {name}
            && after - {name} == db
  {
    var name := Strip(username);
    var rec := ToDict(User(name, Strip(displayName), hash(password), None));
    assert name !in db;
    assert Registered(db, hash, username, password, displayName).value == db[name := rec];
    AddFreshKey(db, name, rec);
  }

  /** Adding a fresh key adds exactly that key and keeps every other entry. */
  lemma AddFreshKey(db: Db, name: string, rec: Record)
    requires name !in db
    ensures db[name := rec].Keys == db.Keys + {name}
    ensures db[name := rec] - {name} == db
  {
  }

  /**
   * The new record reads back as the stripped username, the stripped display
   * name (the username when that strips to nothing), the password's hash and
   * no avatar.
   */
  lemma RegisterStoresNewUser(db: Db, hash: string -> string, username: string, password: string, displayName: string)
    requires Registered(db, hash, username, password, displayName).Some?
    ensures var after := Registered(db, hash, username, password, displayName).value;
            var name := Strip(username);
            && name in after
            && FromDict(after[name]) == Some(User(
                 name,
                 if IsBlank(displayName) then name else Strip(displayName),
                 hash(password),
                 None))
  {
    var name := Strip(username);
    var u := User(name, Strip(displayName), hash(password), None);
    assert Registered(db, hash, username, password, displayName).value[name] == ToDict(u);
    FromDictToDict(u);
  }

  /** A display name of blanks passes the emptiness check and is stored as "". */
  lemma RegisterBlankDisplayName(db: Db, hash: string -> string, username: string, password: string)
    requires !IsBlank(username) && Strip(username) !in db && password != ""
    ensures var after := Registered(db, hash, username, password, " ");
            after.Some? && after.value[Strip(username)]["display_name"] == JStr("")
  {
    assert Strip(" ") == "" by {
      assert IsBlank(" ");
    }
    var name := Strip(username);
    var rec := ToDict(User(name, "", hash(password), None));
    ToDictFields(User(name, "", hash(password), None));
    var after := db[name := rec];
    assert after[name] == rec;
    assert Registered(db, hash, username, password, " ") == Some(after);
  }

  /** The avatar the update stores: only a non-empty source path that was copied yields one. */
  function SavedAvatar(avatarDir: string, username: string, source: Option<string>, copied: bool): Option<string> {
    if source.Some? && source.value != "" then CopyAvatar(avatarDir, username, source.value, copied) else None
  }

  /** `display_name` is replaced by a non-blank new value, stripped. */
  function WithDisplayName(rec: Record, displayName: Option<string>): Record {
    if displayName.Some? && Strip(displayName.value) != "" then rec["display_name" := JStr(Strip(displayName.value))]
    else rec
  }

  /** `password_hash` is replaced for a non-blank new password of at least four characters. */
  function WithPassword(rec: Record, hash: string -> string, newPassword: Option<string>): Record {
    if newPassword.Some? && Strip(newPassword.value) != "" && |newPassword.value| >= 4
    then rec["password_hash" := JStr(hash(newPassword.value))]
    else rec
  }

  /** `avatar` is replaced by the path the copy produced, if any. */
  function WithAvatar(rec: Record, saved: Option<string>): Record {
    if saved.Some? then rec["avatar" := JStr(saved.value)] else rec
  }

  /** The record after `update_profile`'s three field rules, applied in order. */
  function ProfileUpdated(rec: Record, hash: string -> string, displayName: Option<string>,
                          newPassword: Option<string>, saved: Option<string>): Record
  {
    WithAvatar(WithPassword(WithDisplayName(rec, displayName), hash, newPassword), saved)
  }

  /**
   * The update policy seen through `from_dict`: the username never changes;
   * the display name changes only to a non-blank stripped value; the hash
   * only for a non-blank password of at least four characters; the avatar
   * only when the copy produced a path.
   */
  lemma ProfileUpdatePolicy(rec: Record, hash: string -> string, displayName: Option<string>,
                            newPassword: Option<string>, saved: Option<string>)
    requires FromDict(rec).Some?
    ensures var u := FromDict(rec).value;
            var after := ProfileUpdated(rec, hash, displayName, newPassword, saved);
            FromDict(after) == Some(User(
              u.username,
              if displayName.Some? && !IsBlank(displayName.value) then Strip(displayName.value) else u.displayName,
              if newPassword.Some? && !IsBlank(newPassword.value) && |newPassword.value| >= 4
                then hash(newPassword.value) else u.passwordHash,
              if saved.Some? then saved else u.avatar))
  {
    var u := FromDict(rec).value;
    var after := ProfileUpdated(rec, hash, displayName, newPassword, saved);
    ProfileKeepsUsername(rec, hash, displayName, newPassword, saved);
    ProfileDisplayNameRule(rec, hash, displayName, newPassword, saved);
    ProfilePasswordRule(rec, hash, displayName, newPassword, saved);
    ProfileAvatarRule(rec, hash, displayName, newPassword, saved);
    var a := FromDict(after);
    assert a.Some?;
    assert a.value.username == u.username;
    assert a.value.passwordHash ==
      if newPassword.Some? && !IsBlank(newPassword.value) && |newPassword.value| >= 4
      then hash(newPassword.value) else u.passwordHash;
    assert a.value.avatar == if saved.Some? then saved else u.avatar;
    if displayName.Some? && !IsBlank(displayName.value) {
      assert Truthy(Get(after, "display_name"));
      assert a.value.displayName == Strip(displayName.value);
    } else {
      assert Get(after, "display_name") == Get(rec, "display_name");
      assert a.value.displayName == u.displayName;
    }
  }

  /** The key fields are never written: `username` (and a legacy `nickname`) stay as they were. */
  lemma ProfileKeepsUsername(rec: Record, hash: string -> string, displayName: Option<string>,
                             newPassword: Option<string>, saved: Option<string>)
    ensures Get(ProfileUpdated(rec, hash, displayName, newPassword, saved), "username") == Get(rec, "username")
    ensures Get(ProfileUpdated(rec, hash, displayName, newPassword, saved), "nickname") == Get(rec, "nickname")
  {
  }

  /** The display name is replaced only by a non-blank value, stripped. */
  lemma ProfileDisplayNameRule(rec: Record, hash: string -> string, displayName: Option<string>,
                               newPassword: Option<string>, saved: Option<string>)
    ensures Get(ProfileUpdated(rec, hash, displayName, newPassword, saved), "display_name") ==
              if displayName.Some? && !IsBlank(displayName.value)
              then Some(JStr(Strip(displayName.value))) else Get(rec, "display_name")
  {
  }

  /** The hash is replaced only for a non-blank new password of at least four characters. */
  lemma ProfilePasswordRule(rec: Record, hash: string -> string, displayName: Option<string>,
                            newPassword: Option<string>, saved: Option<string>)
    ensures Get(ProfileUpdated(rec, hash, displayName, newPassword, saved), "password_hash") ==
              if newPassword.Some? && !IsBlank(newPassword.value) && |newPassword.value| >= 4
              then Some(JStr(hash(newPassword.value))) else Get(rec, "password_hash")
  {
  }

  /** The avatar changes only when the copy produced a path. */
  lemma ProfileAvatarRule(rec: Record, hash: string -> string, displayName: Option<string>,
                          newPassword: Option<string>, saved: Option<string>)
    ensures Get(ProfileUpdated(rec, hash, displayName, newPassword, saved), "avatar") ==
              if saved.Some? then Some(JStr(saved.value)) else Get(rec, "avatar")
  {
  }

  /** A new password shorter than four characters is silently ignored. */
  lemma ShortPasswordIgnored(rec: Record, hash: string -> string, displayName: Option<string>,
                             newPassword: string, saved: Option<string>)
    requires |newPassword| < 4
    ensures Get(ProfileUpdated(rec, hash, displayName, Some(newPassword), saved), "password_hash") ==
            Get(rec, "password_hash")
  {
  }

  /** What `login` answers against a document. */
  function LoggedIn(db: Db, hash: string -> string, username: string, password: string): Option<User> {
    if username !in db || db[username] == map[] then None
    else if Get(db[username], "password_hash") != Some(JStr(hash(password))) then None
    else FromDict(db[username])
  }

  /** What `get_user` answers against a document. */
  function StoredUser(db: Db, username: string): Option<User> {
    if username !in db || db[username] == map[] then None else FromDict(db[username])
  }

  /** Login succeeds exactly for a stored user whose hash matches, and never for any other password hash. */
  lemma LoginIsLookupWithMatchingHash(db: Db, hash: string -> string, username: string, password: string)
    ensures LoggedIn(db, hash, username, password) ==
            if StoredUser(db, username).Some? && StoredUser(db, username).value.passwordHash == hash(password)
            then StoredUser(db, username) else None
  {
    if username in db && db[username] != map[] && FromDict(db[username]).Some? {
      assert Get(db[username], "password_hash") == Some(JStr(FromDict(db[username]).value.passwordHash));
    }
  }

  /**
   * After a registration the new user can log in under the stripped name with
   * the same password, and not with a password of another hash.
   */
  lemma RegisterThenLogin(db: Db, hash: string -> string, username: string, password: string,
                          displayName: string, other: string)
    requires Registered(db, hash, username, password, displayName).Some?
    requires hash(other) != hash(password)
    ensures var after := Registered(db, hash, username, password, displayName).value;
            var name := Strip(username);
            && LoggedIn(after, hash, name, password) == StoredUser(after, name)
            && LoggedIn(after, hash, name, password).Some?
            && LoggedIn(after, hash, name, password).value.passwordHash == hash(password)
            && LoggedIn(after, hash, name, other) == None
  {
    var name := Strip(username);
    var after := Registered(db, hash, username, password, displayName).value;
    RegisterStoresNewUser(db, hash, username, password, displayName);
    LoginIsLookupWithMatchingHash(after, hash, name, password);
    LoginIsLookupWithMatchingHash(after, hash, name, other);
  }

  /**
   * `register` strips the username but `login` does not: a name registered with
   * surrounding blanks cannot log in as typed.
   */
  lemma LoginDoesNotStrip(db: Db, hash: string -> string, username: string, password: string, displayName: string)
    requires Registered(db, hash, username, password, displayName).Some?
    requires username != Strip(username) && username !in db
    ensures LoggedIn(Registered(db, hash, username, password, displayName).value, hash, username, password) == None
  {
    RegisterAddsOneRecord(db, hash, username, password, displayName);
  }

  /** After a password change the new password logs in and a password of any other hash does not. */
  lemma NewPasswordLogsIn(db: Db, hash: string -> string, username: string, newPassword: string,
                          displayName: Option<string>, saved: Option<string>, previous: string)
    requires username in db && StoredUser(db, username).Some?
    requires !IsBlank(newPassword) && |newPassword| >= 4
    requires hash(previous) != hash(newPassword)
    ensures var after := db[username := ProfileUpdated(db[username], hash, displayName, Some(newPassword), saved)];
            && LoggedIn(after, hash, username, newPassword) == StoredUser(after, username)
            && LoggedIn(after, hash, username, newPassword).Some?
            && LoggedIn(after, hash, username, previous) == None
  {
    var rec := ProfileUpdated(db[username], hash, displayName, Some(newPassword), saved);
    var after := db[username := rec];
    ProfileUpdatePolicy(db[username], hash, displayName, Some(newPassword), saved);
    assert rec != map[] by {
      assert "username" in rec;
    }
    LoginIsLookupWithMatchingHash(after, hash, username, newPassword);
    LoginIsLookupWithMatchingHash(after, hash, username, previous);
  }

  // ---------------------------------------------------------------------------
  // Session and service

  /** The process-wide cell holding the signed-in user (`_CURRENT_USER`). */
  class Session {
    var current: Option<User>

    constructor()
      ensures current == None
    {
      current := None;
    }

    /** `get_current_user`. */
    method Get() returns (u: Option<User>)
      ensures u == current
    {
      u := current;
    }

    /** `set_current_user`. */
    method Set(u: Option<User>)
      modifies this
      ensures current == u
    {
      current := u;
    }
  }

  class AuthService {
    /** `_hash`: a deterministic digest of the password, otherwise unknown. */
    const hash: string -> string
    /** `AVATAR_DIR`. */
    const avatarDir: string
    /** The users document as last saved. */
    var db: Db

    /** `AuthService()`: the document on disk, or an empty one when there is none. */
    constructor(hash: string -> string, avatarDir: string, stored: Option<Db>)
      ensures this.hash == hash && this.avatarDir == avatarDir
      ensures db == stored.GetOr(map[])
    {
      this.hash := hash;
      this.avatarDir := avatarDir;
      db := stored.GetOr(map[]);
    }

    /** `register`: True and the new record saved, or False and nothing changed. */
    method Register(username: string, password: string, displayName: string) returns (ok: bool)
      modifies this
      ensures ok == Registered(old(db), hash, username, password, displayName).Some?
      ensures db == Registered(old(db), hash, username, password, displayName).GetOr(old(db))
    {
      var name := Strip(username);
      if name == "" || password == "" || displayName == "" {
        return false;
      }
      if name in db {
        return false;
      }
      db := db[name := ToDict(User(name, Strip(displayName), hash(password), None))];
      ok := true;
    }

    /** `login`: the user exactly when the record exists and the password's hash matches it. */
    method Login(username: string, password: string) returns (u: Option<User>)
      ensures u == LoggedIn(db, hash, username, password)
      ensures u.Some? <==>
        && username in db && db[username] != map[]
        && Get(db[username], "password_hash") == Some(JStr(hash(password)))
        && FromDict(db[username]).Some?
      ensures u.Some? ==> Some(u.value) == FromDict(db[username]) && u.value.passwordHash == hash(password)
    {
      if username !in db || db[username] == map[] {
        return None;
      }
      var rec := db[username];
      if Get(rec, "password_hash") != Some(JStr(hash(password))) {
        return None;
      }
      u := FromDict(rec);
    }

    /** `get_user`: the stored user, or None for an unknown name or an empty record. */
    method GetUser(username: string) returns (u: Option<User>)
      ensures u == StoredUser(db, username)
      ensures u.Some? <==> username in db && db[username] != map[] && FromDict(db[username]).Some?
      ensures u.Some? ==> Some(u.value) == FromDict(db[username])
    {
      if username !in db || db[username] == map[] {
        return None;
      }
      u := FromDict(db[username]);
    }

    /**
     * `update_profile`: None and nothing changed for an unknown username;
     * otherwise the record updated by the field rules is saved, returned, and
     * put in the session when the session holds the same username.
     */
    method UpdateProfile(username: string, displayName: Option<string>, newPassword: Option<string>,
                         avatarSource: Option<string>, avatarCopied: bool, session: Session)
      returns (updated: Option<User>)
      modifies this, session
      ensures username !in old(db) ==>
        updated == None && db == old(db) && session.current == old(session.current)
      ensures username in old(db) ==>
        var saved := SavedAvatar(avatarDir, username, avatarSource, avatarCopied);
        var rec := ProfileUpdated(old(db)[username], hash, displayName, newPassword, saved);
        && db == old(db)[username := rec]
        && updated == FromDict(rec)
        && session.current ==
             if updated.Some? && old(session.current).Some? && old(session.current).value.username == username
             then updated else old(session.current)
    {
      if username !in db {
        return None;
      }
      var rec := db[username];
      rec := WithDisplayName(rec, displayName);
      rec := WithPassword(rec, hash, newPassword);
      var saved := SavedAvatar(avatarDir, username, avatarSource, avatarCopied);
      rec := WithAvatar(rec, saved);
      db := db[username := rec];
      updated := FromDict(rec);
      if updated.None? {
        return;
      }
      var cur := session.Get();
      if cur.Some? && cur.value.username == username {
        session.Set(updated);
      }
    }
  }

  /**
   * A sign-up on a fresh document, a second sign-up under the same name and
   * two sign-in attempts: the second registration is refused, the right
   * password logs in as the new user and a password of another hash does not.
   */
  method SignUpAndSignIn(hash: string -> string, avatarDir: string, name: string, password: string,
                         displayName: string, wrong: string, otherPassword: string, otherDisplayName: string)
    returns (first: bool, second: bool, good: Option<User>, bad: Option<User>)
    requires name != [] && !IsSpace(name[0]) && !IsSpace(name[|name| - 1])
    requires displayName != [] && !IsSpace(displayName[0]) && !IsSpace(displayName[|displayName| - 1])
    requires password != ""
    requires hash(wrong) != hash(password)
    ensures first && !second
    ensures good == Some(User(name, displayName, hash(password), None))
    ensures bad == None
  {
    StripKeepsTrimmed(name);
    StripKeepsTrimmed(displayName);
    var service := new AuthService(hash, avatarDir, None);
    first := service.Register(name, password, displayName);
    RegisterThenLogin(map[], hash, name, password, displayName, wrong);
    RegisterStoresNewUser(map[], hash, name, password, displayName);
    second := service.Register(name, otherPassword, otherDisplayName);
    good := service.Login(name, password);
    bad := service.Login(name, wrong);
  }

  /**
   * Two users sign up and the first signs in. A profile change of the
   * signed-in user shows in the session; a change to the other user leaves
   * the session as it was.
   */
  method SessionFollowsOwnProfile(hash: string -> string, avatarDir: string, name: string, password: string,
                                  displayName: string, newDisplayName: string, other: string, otherPassword: string,
                                  otherDisplayName: string, otherNewDisplayName: string)
    returns (afterOwn: Option<User>, afterOther: Option<User>)
    requires name != [] && !IsSpace(name[0]) && !IsSpace(name[|name| - 1])
    requires other != [] && !IsSpace(other[0]) && !IsSpace(other[|other| - 1])
    requires name != other && password != "" && otherPassword != ""
    requires displayName != "" && otherDisplayName != ""
    requires newDisplayName != [] && !IsSpace(newDisplayName[0]) && !IsSpace(newDisplayName[|newDisplayName| - 1])
    ensures afterOwn == Some(User(name, newDisplayName, hash(password), None))
    ensures afterOther == afterOwn
  {
    StripKeepsTrimmed(name);
    StripKeepsTrimmed(other);
    StripKeepsTrimmed(newDisplayName);
    var service := new AuthService(hash, avatarDir, None);
    var session := new Session();
    var ok := service.Register(name, password, displayName);
    var signedUp := User(name, Strip(displayName), hash(password), None);
    assert service.db == map[name := ToDict(signedUp)];
    ok := service.Register(other, otherPassword, otherDisplayName);
    assert service.db[name] == ToDict(signedUp);
    FromDictToDict(signedUp);
    LoginIsLookupWithMatchingHash(service.db, hash, name, password);
    var user := service.Login(name, password);
    assert user == Some(User(name, if Strip(displayName) != "" then Strip(displayName) else name, hash(password), None));
    session.Set(user);
    ProfileUpdatePolicy(ToDict(signedUp), hash, Some(newDisplayName), None, None);
    var updated := service.UpdateProfile(name, Some(newDisplayName), None, None, false, session);
    afterOwn := session.Get();
    assert afterOwn == Some(User(name, newDisplayName, hash(password), None));
    updated := service.UpdateProfile(other, Some(otherNewDisplayName), None, None, false, session);
    afterOther := session.Get();
  }
}
