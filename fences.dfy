/** Clean-up of the vision model's reply before it is parsed as JSON:
    `text.strip().replace('```json', '').replace('```', '')`. */
module Fences {
  import opened PyStr

  const JsonFence: string := "```json"
  const Fence: string := "```"

  /** The two deletions, without the leading strip. No fence survives them, not even
      one that the first deletion forms by joining backticks on both sides of a removed
      "```json", and they never lengthen the text. */
  function StripFences(s: string): (r: string)
    ensures !Contains(r, Fence) && !Contains(r, JsonFence)
    ensures |r| <= |s|
  {
    var once := Replace(s, JsonFence, "");
    DeleteFenceLeavesNone(once);
    JsonFenceHoldsFence(Replace(once, Fence, ""));
    Replace(once, Fence, "")
  }

  /** The whole clean-up: strip first, then delete the fences. The text handed to the
      JSON parser holds no fence and is never longer than the reply. */
  function Clean(text: string): (r: string)
    ensures !Contains(r, Fence) && !Contains(r, JsonFence)
    ensures |r| <= |text|
  {
    StripFences(Strip(text))
  }

  // ---------------------------------------------------------------------------
  // Deleting "```" leaves no "```"
  // ---------------------------------------------------------------------------

  /** A string too short to hold a fence is not changed by deleting fences. */
  lemma DeleteFenceShort(t: string)
    requires |t| < 3
    ensures Replace(t, Fence, "") == t
  {
  }

  /** Deleting fences keeps a first character that is not a backtick. */
  lemma DeleteFenceHead(t: string)
    requires t != [] && t[0] != '`'
    ensures Replace(t, Fence, "") != [] && Replace(t, Fence, "")[0] == t[0]
  {
    if |t| >= 3 {
      assert t[..3][0] == t[0];
    }
  }

  /** After deleting every "```" the result holds no "```": a kept backtick is never
      followed by two more, since the scan would have deleted all three. */
  lemma {:induction false} DeleteFenceLeavesNone(t: string)
    ensures !Contains(Replace(t, Fence, ""), Fence)
    decreases |t|
  {
    var r := Replace(t, Fence, "");
    if |t| < 3 {
      DeleteFenceShort(t);
    } else if t[..3] == Fence {
      assert r == Replace(t[3..], Fence, "");
      DeleteFenceLeavesNone(t[3..]);
    } else {
      var rest := Replace(t[1..], Fence, "");
      assert r == [t[0]] + rest;
      DeleteFenceLeavesNone(t[1..]);
      assert r[1..] == rest;
      ContainsTail(r, Fence);
      // the first three characters of r are not a fence
      if t[0] == '`' {
        if t[1] != '`' {
          DeleteFenceHead(t[1..]);
          assert r[1] == t[1];
        } else {
          assert t[2] != '`' by {
            assert t[..3] == [t[0], t[1], t[2]];
          }
          var u := t[1..];
          if |u| < 3 {
            DeleteFenceShort(u);
            assert r[2] == u[1] == t[2];
          } else {
            assert u[..3][1] == t[2];
            assert rest == [u[0]] + Replace(u[1..], Fence, "");
            DeleteFenceHead(u[1..]);
            assert r[2] == t[2];
          }
        }
      }
      if |r| >= 3 {
        assert r[..3][0] == r[0] && r[..3][1] == r[1] && r[..3][2] == r[2];
      }
    }
  }

  /** Every "```json" holds a "```". */
  lemma JsonFenceHoldsFence(t: string)
    ensures Contains(t, JsonFence) ==> Contains(t, Fence)
  {
    if Contains(t, JsonFence) {
      var i :| 0 <= i <= |t| - |JsonFence| && OccursAt(t, JsonFence, i);
      assert t[i..i + 3] == t[i..i + 7][..3];
      assert OccursAt(t, Fence, i);
    }
  }

  // ---------------------------------------------------------------------------
  // Properties of the clean-up
  // ---------------------------------------------------------------------------

  /** Deleting the fences a second time changes nothing. */
  lemma StripFencesIdempotent(s: string)
    ensures StripFences(StripFences(s)) == StripFences(s)
  {
    var once := StripFences(s);
    ReplaceAbsent(once, JsonFence, "");
    ReplaceAbsent(once, Fence, "");
  }

  /** A reply without backticks is only stripped. */
  lemma CleanWithoutBackticks(text: string)
    requires '`' !in text
    ensures Clean(text) == Strip(text)
  {
    var t := Strip(text);
    if '`' in t {
      StripChars(text, '`');
    }
    AbsentFirstChar(t, JsonFence);
    AbsentFirstChar(t, Fence);
    ReplaceAbsent(t, JsonFence, "");
    ReplaceAbsent(t, Fence, "");
  }

  /** The clean-up only deletes characters: nothing appears that was not in the reply. */
  lemma CleanKeepsChars(text: string, c: char)
    requires c in Clean(text)
    ensures c in text
  {
    DeleteKeepsChars(Replace(Strip(text), JsonFence, ""), Fence, c);
    DeleteKeepsChars(Strip(text), JsonFence, c);
    StripChars(text, c);
  }

  /** A body without backticks between a "```json" and a closing "```" comes out of
      the clean-up exactly as it is: stripping happens before the fences are deleted,
      so the whitespace the fences enclosed is kept. */
  lemma CleanFencedBody(b: string)
    requires '`' !in b
    ensures Clean(JsonFence + b + Fence) == b
  {
    var s := JsonFence + b + Fence;
    assert s[0] == '`' && s[|s| - 1] == '`';
    StripUnpadded(s);
    assert s[..7] == JsonFence;
    assert s[7..] == b + Fence;
    DeleteJsonFenceTail(b);
    assert Replace(s, JsonFence, "") == b + Fence;
    DeleteFenceTail(b);
    assert StripFences(s) == b;
  }

  /** So the newlines inside a fenced reply survive. */
  lemma CleanKeepsInnerWhitespace()
    ensures Clean("```json\n{}\n```") == "\n{}\n"
  {
    CleanFencedBody("\n{}\n");
    assert JsonFence + "\n{}\n" + Fence == "```json\n{}\n```";
  }

  /** Because of that, cleaning twice differs from cleaning once. */
  lemma CleanNotIdempotent()
    ensures Clean(Clean("```json\n{}\n```")) == "{}" != Clean("```json\n{}\n```")
  {
    CleanKeepsInnerWhitespace();
    var once := "\n{}\n";
    StripInner();
    assert Replace("{}", JsonFence, "") == "{}";
    DeleteFenceShort("{}");
    assert Clean(once) == "{}";
    assert |once| != |"{}"|;
  }

  /** Stripping the cleaned reply a second time removes the enclosed newlines. */
  lemma StripInner()
    ensures Strip("\n{}\n") == "{}"
  {
    var inner := "\n{}\n";
    var t := inner[1..];
    assert t == "{}\n";
    assert IsSpace(inner[0]) && !IsSpace(t[0]);
    assert TrimLeft(t) == t;
    assert TrimLeft(inner) == t;
    var u := t[..2];
    assert u == "{}";
    assert IsSpace(t[2]) && !IsSpace(u[1]);
    assert TrimRight(u) == u;
    assert TrimRight(t) == u;
  }

  /** A fence at the end of a string without backticks is deleted and nothing else is. */
  lemma {:induction false} DeleteFenceTail(u: string)
    requires '`' !in u
    ensures Replace(u + Fence, Fence, "") == u
  {
    if u == [] {
      assert u + Fence == Fence;
    } else {
      assert (u + Fence)[..3][0] == u[0];
      assert (u + Fence)[1..] == u[1..] + Fence;
      DeleteFenceTail(u[1..]);
    }
  }

  /** No "```json" is found in a string without backticks followed by a fence. */
  lemma {:induction false} DeleteJsonFenceTail(u: string)
    requires '`' !in u
    ensures Replace(u + Fence, JsonFence, "") == u + Fence
  {
    if u != [] && |u + Fence| >= |JsonFence| {
      assert (u + Fence)[..7][0] == u[0];
      assert (u + Fence)[1..] == u[1..] + Fence;
      DeleteJsonFenceTail(u[1..]);
    }
  }

  /** The first deletion can join backticks into a fence, which the second removes. */
  lemma JoinedFenceRemoved()
    ensures StripFences("``" + JsonFence + "`") == ""
  {
    JoinedFenceFormed();
    assert Replace(Fence, Fence, "") == "";
  }

  /** Deleting the "```json" between two backticks and one joins them into a fence. */
  lemma JoinedFenceFormed()
    ensures Replace("``" + JsonFence + "`", JsonFence, "") == Fence
  {
    var s := "``" + JsonFence + "`";
    assert s[..7] != JsonFence by { assert s[3] != JsonFence[3]; }
    assert s[1..][..7] != JsonFence by { assert s[4] != JsonFence[3]; }
    assert s[2..][..7] == JsonFence;
    assert s[2..][7..] == "`";
    assert Replace(s[2..], JsonFence, "") == "`";
    assert s[1..][1..] == s[2..];
    assert Replace(s[1..], JsonFence, "") == "``";
  }
}
