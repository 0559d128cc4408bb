/**
 * FileAssembly.sanitizeFilename (src/main/java/server/ServerHandler.java:153-157):
 * name.replace("..", "").replace("/", "_").replace("\\", "_").
 * The name is handled as its bytes: '.', '/', '\' and '_' are single ASCII bytes
 * in UTF-8, and no byte of a multi-byte UTF-8 sequence is ASCII.
 */
module FileNames {
  import opened ByteOrder

  const DOT: uint8 := 0x2E
  const SLASH: uint8 := 0x2F
  const BACKSLASH: uint8 := 0x5C
  const UNDERSCORE: uint8 := 0x5F

  /** No two adjacent dots: the name holds no "..". */
  predicate NoDotDot(s: Bytes)
  {
    forall i :: 0 <= i < |s| - 1 ==> !(s[i] == DOT && s[i + 1] == DOT)
  }

  /** A name that cannot leave the output folder: no "..", no '/' and no '\'. */
  predicate SafeName(s: Bytes)
  {
    NoDotDot(s) && SLASH !in s && BACKSLASH !in s
  }

  /** The bytes of s other than dots, in order. */
  function WithoutDots(s: Bytes): Bytes
  {
    if s == [] then [] else (if s[0] == DOT then [] else [s[0]]) + WithoutDots(s[1..])
  }

  /**
   * String.replace("..", ""): a left-to-right scan that drops each
   * non-overlapping occurrence of "..", so "..." becomes ".".
   */
  function RemoveDotDot(s: Bytes): (r: Bytes)
    ensures |r| <= |s| && (|s| - |r|) % 2 == 0
    ensures NoDotDot(r)
    ensures s != [] && s[0] != DOT ==> r != [] && r[0] == s[0]
  {
    if |s| >= 2 && s[0] == DOT && s[1] == DOT then RemoveDotDot(s[2..])
    else if s == [] then []
    else [s[0]] + RemoveDotDot(s[1..])
  }

  /** String.replace of a one-character string: every `from` becomes `to`. */
  function Replace(s: Bytes, from: uint8, to: uint8): (r: Bytes)
  {
    seq(|s|, i requires 0 <= i < |s| => if s[i] == from then to else s[i])
  }

  /** The sanitised name has no "..", no '/' and no '\', and is never longer than the input. */
  function SanitizeFilename(name: Bytes): (r: Bytes)
    ensures |r| <= |name|
    ensures SafeName(r)
  {
    var noDots := RemoveDotDot(name);
    var r := Replace(Replace(noDots, SLASH, UNDERSCORE), BACKSLASH, UNDERSCORE);
    assert forall i :: 0 <= i < |r| ==> (r[i] == DOT <==> noDots[i] == DOT);
    r
  }

  /** The ".." removal drops dots only, in pairs: every other byte survives, in order. */
  lemma {:induction false} RemoveDotDotKeepsOtherBytes(s: Bytes)
    ensures WithoutDots(RemoveDotDot(s)) == WithoutDots(s)
  {
    if |s| >= 2 && s[0] == DOT && s[1] == DOT {
      RemoveDotDotKeepsOtherBytes(s[2..]);
      assert s[1..][1..] == s[2..];
    } else if s != [] {
      RemoveDotDotKeepsOtherBytes(s[1..]);
      assert ([s[0]] + RemoveDotDot(s[1..]))[1..] == RemoveDotDot(s[1..]);
    }
  }

  /** A name without ".." passes the ".." removal unchanged, and only such a name does. */
  lemma {:induction false} RemoveDotDotFixedPoints(s: Bytes)
    ensures RemoveDotDot(s) == s <==> NoDotDot(s)
  {
    if NoDotDot(s) && s != [] {
      assert NoDotDot(s[1..]) by {
        forall i | 0 <= i < |s[1..]| - 1 ensures !(s[1..][i] == DOT && s[1..][i + 1] == DOT) {
          assert s[1..][i] == s[i + 1] && s[1..][i + 1] == s[i + 2];
        }
      }
      RemoveDotDotFixedPoints(s[1..]);
      if |s| >= 2 {
        assert !(s[0] == DOT && s[1] == DOT);
      }
    }
  }

  /** Sanitising is idempotent: a sanitised name is left as it is. */
  lemma SanitizeIdempotent(name: Bytes)
    ensures SanitizeFilename(SanitizeFilename(name)) == SanitizeFilename(name)
  {
    SanitizeLeavesSafeNames(SanitizeFilename(name));
  }

  /** A name with no "..", '/' or '\' is its own sanitised form. */
  lemma SanitizeLeavesSafeNames(name: Bytes)
    requires SafeName(name)
    ensures SanitizeFilename(name) == name
  {
    RemoveDotDotFixedPoints(name);
    assert Replace(name, SLASH, UNDERSCORE) == name;
    assert Replace(name, BACKSLASH, UNDERSCORE) == name;
  }
}
