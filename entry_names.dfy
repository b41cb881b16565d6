/**
  How the archiver names an entry: the object key relative to the scanned
  prefix, so that the archive is laid out flat under that prefix.
*/
module EntryNames {
  /** `p` is a leading part of `s` (Go's strings.HasPrefix). */
  predicate HasPrefix(s: string, p: string) {
    |p| <= |s| && s[..|p|] == p
  }

  /** `s` without a leading `p`, or `s` itself when it does not start with `p` (Go's strings.TrimPrefix). */
  function TrimPrefix(s: string, p: string): (r: string)
    ensures HasPrefix(s, p) ==> p + r == s
    ensures !HasPrefix(s, p) ==> r == s
  {
    if HasPrefix(s, p) then s[|p|..] else s
  }

  /**
    The in-archive path of the object stored under `key`: when `sourcePrefix`
    is non-empty and starts the key, the key with that prefix removed and then
    at most one leading '/' removed; otherwise the key unchanged.
  */
  function EntryName(key: string, sourcePrefix: string): (name: string)
  {
    if sourcePrefix != "" && HasPrefix(key, sourcePrefix) then
      TrimPrefix(key[|sourcePrefix|..], "/")
    else
      key
  }

  /** The name is a trailing part of the key: naming only ever drops characters from the front. */
  lemma EntryNameIsSuffix(key: string, sourcePrefix: string)
    ensures var name := EntryName(key, sourcePrefix);
      |name| <= |key| && key[|key| - |name|..] == name
  {
    if sourcePrefix != "" && HasPrefix(key, sourcePrefix) {
      var rest := key[|sourcePrefix|..];
      if HasPrefix(rest, "/") {
        assert rest[1..] == key[|sourcePrefix| + 1..];
      }
    }
  }

  /** With a matching prefix the key is rebuilt from the prefix, one optional '/' and the name. */
  lemma StrippedKeyRebuilds(key: string, sourcePrefix: string)
    requires sourcePrefix != "" && HasPrefix(key, sourcePrefix)
    ensures HasPrefix(key, sourcePrefix + "/") ==> key == sourcePrefix + "/" + EntryName(key, sourcePrefix)
    ensures !HasPrefix(key, sourcePrefix + "/") ==> key == sourcePrefix + EntryName(key, sourcePrefix)
  {
    var rest := key[|sourcePrefix|..];
    assert key == sourcePrefix + rest;
    if HasPrefix(rest, "/") {
      assert key[..|sourcePrefix| + 1] == sourcePrefix + rest[..1];
    }
  }

  /** Only one '/' is trimmed: a second leading '/' stays in the name. */
  lemma SecondSlashSurvives(key: string, sourcePrefix: string)
    requires sourcePrefix != "" && HasPrefix(key, sourcePrefix + "//")
    ensures HasPrefix(EntryName(key, sourcePrefix), "/")
  {
    var p := sourcePrefix;
    assert key[..|p|] == (key[..|p| + 2])[..|p|] == (p + "//")[..|p|] == p;
    assert HasPrefix(key, p);
    var rest := key[|p|..];
    assert rest[..2] == key[|p|..|p| + 2] == (p + "//")[|p|..] == "//";
    assert rest[..1] == "/";
    assert EntryName(key, p) == rest[1..];
    assert rest[1..][..1] == rest[1..2] == "/";
  }

  /** A key equal to a non-empty prefix becomes the empty name. */
  lemma KeyEqualToPrefixIsEmpty(sourcePrefix: string)
    requires sourcePrefix != ""
    ensures EntryName(sourcePrefix, sourcePrefix) == ""
  {
    assert sourcePrefix[..|sourcePrefix|] == sourcePrefix;
  }

  /** An empty prefix, or one the key does not start with, leaves the key untouched (leading '/' included). */
  lemma UnmatchedKeyUnchanged(key: string, sourcePrefix: string)
    requires sourcePrefix == "" || !HasPrefix(key, sourcePrefix)
    ensures EntryName(key, sourcePrefix) == key
  {
  }

  /** Flattening examples, including one where the prefix has no trailing '/'. */
  lemma FlatteningExamples()
    ensures EntryName("a/b/c/file.txt", "a/b/") == "c/file.txt"
    ensures EntryName("a/b/c/file.txt", "a/b") == "c/file.txt"
    ensures EntryName("x/file.txt", "a/b/") == "x/file.txt"
    ensures EntryName("/a/file.txt", "") == "/a/file.txt"
  {
    assert "a/b/c/file.txt"[..4] == "a/b/";
    assert "a/b/c/file.txt"[..3] == "a/b";
    assert "a/b/c/file.txt"[4..] == "c/file.txt";
    assert "a/b/c/file.txt"[3..] == "/c/file.txt";
    assert "/c/file.txt"[..1] == "/";
    assert EntryName("a/b/c/file.txt", "a/b/") == TrimPrefix("c/file.txt", "/");
    assert "c/file.txt"[..1][0] != "/"[0];
    assert "/c/file.txt"[1..] == "c/file.txt";
    assert "x/file.txt"[..4][0] != "a/b/"[0];
  }

  /**
    Because the prefix need not end in '/', two different keys under it can
    receive the same entry name: with prefix "logs", "logs/x" and "logsx"
    both become "x".
  */
  lemma DistinctKeysShareName()
    ensures EntryName("logs/x", "logs") == EntryName("logsx", "logs") == "x"
  {
    assert "logs/x"[..4] == "logs" && "logsx"[..4] == "logs";
    assert "logs/x"[4..] == "/x" && "logsx"[4..] == "x";
    assert "/x"[..1] == "/" && "x"[..1][0] != "/"[0];
  }
}
