// The code-fence removal `parse_resume_to_json` applies to the model's reply
// before handing it to `json.loads` (app.py:271-276).
module ResumeImport {
  import opened Strings

  const OPEN_FENCE := "```json"
  const CLOSE_FENCE := "```"

  /** Strip, then cut a leading "```json" and, independently, a trailing "```". */
  function StripFence(reply: string): string
  {
    var s := Strip(reply);
    var t := if StartsWith(s, OPEN_FENCE) then s[|OPEN_FENCE|..] else s;
    if EndsWith(t, CLOSE_FENCE) then t[..|t| - |CLOSE_FENCE|] else t
  }

  /** The result is a contiguous piece of the stripped reply, at most as long. */
  lemma FenceIsSlice(reply: string)
    ensures |StripFence(reply)| <= |Strip(reply)|
    ensures exists i :: OccursAt(Strip(reply), StripFence(reply), i)
  {
    var s := Strip(reply);
    var t := if StartsWith(s, OPEN_FENCE) then s[|OPEN_FENCE|..] else s;
    var i := if StartsWith(s, OPEN_FENCE) then |OPEN_FENCE| else 0;
    assert t == s[i..];
    var r := StripFence(reply);
    assert r == s[i..i + |r|];
    assert OccursAt(s, r, i);
  }

  /** A reply fenced as "```json ... ```" gives back exactly what is between the fences. */
  lemma FencedRoundTrip(body: string)
    ensures StripFence(OPEN_FENCE + body + CLOSE_FENCE) == body
  {
    var s := OPEN_FENCE + body + CLOSE_FENCE;
    StripKeeps(s);
    assert s[..|OPEN_FENCE|] == OPEN_FENCE;
    var t := s[|OPEN_FENCE|..];
    assert t == body + CLOSE_FENCE;
    assert t[|t| - 3..] == CLOSE_FENCE;
    assert t[..|t| - 3] == body;
  }

  /**
   * A bare "```" opening fence is not recognised: only the closing fence is
   * removed, so the text handed to the JSON parser still starts with "```".
   */
  lemma BareFenceKept(body: string)
    requires !StartsWith(body, "json")
    ensures StripFence(CLOSE_FENCE + body + CLOSE_FENCE) == CLOSE_FENCE + body
  {
    var s := CLOSE_FENCE + body + CLOSE_FENCE;
    StripKeeps(s);
    assert !StartsWith(s, OPEN_FENCE) by {
      if |body| >= 4 {
        assert s[..7][3..] == body[..4];
        assert OPEN_FENCE[3..] == "json";
      } else if |body| > 0 {
        assert s[..7][3 + |body|] == '`';
        assert OPEN_FENCE[3 + |body|] != '`';
      }
    }
    assert s[|s| - 3..] == CLOSE_FENCE;
    assert s[..|s| - 3] == CLOSE_FENCE + body;
  }

  /** A reply without fences is only stripped. */
  lemma UnfencedReply(reply: string)
    requires !StartsWith(Strip(reply), OPEN_FENCE) && !EndsWith(Strip(reply), CLOSE_FENCE)
    ensures StripFence(reply) == Strip(reply)
  {
  }
}
