/** The food parser (`parse_food_amount`) past the call to the text-generation service:
    the payload is cut out of a markdown-fenced reply and handed to the JSON decoder. The
    reply is the `reply` parameter (`None` when the service call raised) and the decoder
    is the `decode` parameter (`None` when `json.loads` raised). */
module FoodParser {
  import opened Wrappers
  import opened Strings
  import opened Records

  const JsonFence: string := "```json"
  const Fence: string := "```"

  /** The fence-stripping step: the text after the first "```json" up to the next fence,
      else the text between the first two "```", stripped; a reply without any fence is
      kept as it is. Indexing field 1 of a split is in range under each guard, so this
      step never raises. */
  function ExtractFenced(content: string): (r: string)
    ensures !Contains(content, Fence) ==> r == content
    ensures Contains(content, Fence) ==> !Contains(r, Fence)
  {
    if Contains(content, JsonFence) then
      JsonFenceHasFence(content);
      StripKeepsAbsence(Split(Split(content, JsonFence)[1], Fence)[0], Fence);
      Strip(Split(Split(content, JsonFence)[1], Fence)[0])
    else if Contains(content, Fence) then
      StripKeepsAbsence(Split(Split(content, Fence)[1], Fence)[0], Fence);
      Strip(Split(Split(content, Fence)[1], Fence)[0])
    else
      content
  }

  /** `parse_food_amount` after the service call: any failure (of the service or of the
      decoder) gives the empty list instead of an exception. */
  function ParseFoodAmount(reply: Option<string>, decode: string -> Option<seq<ParsedItem>>): (foods: seq<ParsedItem>)
    ensures reply.None? ==> foods == []
    ensures reply.Some? && decode(ExtractFenced(reply.value)).None? ==> foods == []
    ensures reply.Some? && decode(ExtractFenced(reply.value)).Some? ==> foods == decode(ExtractFenced(reply.value)).value
  {
    match reply
    case None => []
    case Some(content) =>
      match decode(ExtractFenced(content))
      case None => []
      case Some(items) => items
  }

  /** A reply holding "```json" also holds "```". */
  lemma JsonFenceHasFence(s: string)
    requires Contains(s, JsonFence)
    ensures Contains(s, Fence)
  {
    var k := IndexOf(s, JsonFence).value;
    assert s[k..k + |Fence|] == s[k..k + |JsonFence|][..|Fence|];
    assert OccursAt(s, Fence, k);
  }

  /** Stripping cannot create an occurrence: the stripped text is a slice of the original. */
  lemma StripKeepsAbsence(s: string, p: string)
    requires |p| > 0 && !Contains(s, p)
    ensures !Contains(Strip(s), p)
  {
    var r := Strip(s);
    var lo: nat :| StrippedAt(s, r, lo);
    SliceKeepsAbsence(s, p, lo, |r|);
  }

  /** When `c` is `pre + sep + rest` and that `sep` is the first one, field 1 of the split
      is field 0 of the split of `rest`. */
  lemma SecondField(c: string, sep: string, pre: string, rest: string)
    requires |sep| > 0 && c == pre + sep + rest && IndexOf(c, sep) == Some(|pre|)
    ensures |Split(c, sep)| >= 2 && Split(c, sep)[1] == Split(rest, sep)[0]
  {
    assert c[|pre| + |sep|..] == rest;
  }

  /** When `pre` holds no "```json", the first "```json" in `pre + "```json" + rest` is the
      one right after `pre`: no occurrence can reach from `pre` into the fence, since the
      fence's fourth character 'j' and its first '`' never line up with "```json" itself. */
  lemma JsonFenceFirstAfter(pre: string, rest: string)
    requires !Contains(pre, JsonFence)
    ensures IndexOf(pre + JsonFence + rest, JsonFence) == Some(|pre|)
  {
    var c := pre + JsonFence + rest;
    assert c[|pre|..|pre| + |JsonFence|] == JsonFence;
    assert c[|pre|] == '`' && c[|pre| + 3] == 'j';
    forall j: nat | j < |pre|
      ensures !OccursAt(c, JsonFence, j)
    {
      if j + |JsonFence| <= |pre| {
        assert c[j..j + |JsonFence|] == pre[j..j + |JsonFence|];
        NoOccurrence(pre, JsonFence, j);
      } else if j + |JsonFence| <= |c| {
        if |pre| - j >= 3 {
          assert c[j..j + |JsonFence|][|pre| - j] == c[|pre|];
        } else {
          assert c[j..j + |JsonFence|][|pre| + 3 - j] == c[|pre| + 3];
        }
      }
    }
    FirstOccurrence(c, JsonFence, |pre|);
  }

  /** When `pre + "``"` holds no "```", the first "```" in `pre + "```" + rest` is the one
      right after `pre`: an earlier one would lie inside `pre + "``"`. */
  lemma FenceFirstAfter(pre: string, rest: string)
    requires !Contains(pre + "``", Fence)
    ensures IndexOf(pre + Fence + rest, Fence) == Some(|pre|)
  {
    var c := pre + Fence + rest;
    var head := pre + "``";
    assert c[|pre|..|pre| + |Fence|] == Fence;
    assert c[..|head|] == head;
    forall j: nat | j < |pre|
      ensures !OccursAt(c, Fence, j)
    {
      assert c[j..j + |Fence|] == head[j..j + |Fence|];
      NoOccurrence(head, Fence, j);
    }
    FirstOccurrence(c, Fence, |pre|);
  }

  /** Text ended by its first fence: field 0 is the text itself. */
  lemma HeadBeforeFence(body: string, rest: string)
    requires !Contains(body + "``", Fence)
    ensures Split(body + Fence + rest, Fence)[0] == body
  {
    FenceFirstAfter(body, rest);
  }

  /** Text with no fence has a single field. */
  lemma HeadOfFenceFree(body: string)
    requires !Contains(body + "``", Fence)
    ensures !Contains(body, Fence) && Split(body, Fence)[0] == body
  {
    assert (body + "``")[0..|body|] == body;
    SliceKeepsAbsence(body + "``", Fence, 0, |body|);
  }

  /** A reply of the usual shape "<pre>```json<body>```<post>" yields the stripped body, when
      `pre` holds no "```json" (it may hold plain "```" blocks and inline backticks), the
      closing fence is the first "```" after `body`, and `post` does not start with a
      backtick. */
  lemma FencedJsonBlock(pre: string, body: string, post: string)
    requires !Contains(pre, JsonFence) && !Contains(body + "``", Fence)
    requires post == [] || post[0] != '`'
    ensures ExtractFenced(pre + JsonFence + body + Fence + post) == Strip(body)
  {
    var x := body + Fence + post;
    var c := pre + JsonFence + x;
    assert pre + JsonFence + body + Fence + post == c;
    JsonFenceFirstAfter(pre, x);
    SecondField(c, JsonFence, pre, x);
    PayloadHead(body, post);
  }

  /** A "```json" block is taken even when a plain "```" block comes before it. */
  lemma JsonBlockAfterPlainBlock(pre: string, plain: string, mid: string, body: string, post: string)
    requires !Contains(pre + Fence + plain + Fence + mid, JsonFence)
    requires !Contains(body + "``", Fence)
    requires post == [] || post[0] != '`'
    ensures ExtractFenced(pre + Fence + plain + Fence + mid + JsonFence + body + Fence + post) == Strip(body)
  {
    var head := pre + Fence + plain + Fence + mid;
    assert pre + Fence + plain + Fence + mid + JsonFence + body + Fence + post
        == head + JsonFence + body + Fence + post;
    FencedJsonBlock(head, body, post);
  }

  /** After the opening "```json", the payload cut at the next "```json" and then at its
      first "```" is `body`. */
  lemma PayloadHead(body: string, post: string)
    requires !Contains(body + "``", Fence)
    requires post == [] || post[0] != '`'
    ensures Split(Split(body + Fence + post, JsonFence)[0], Fence)[0] == body
  {
    var x := body + Fence + post;
    FenceFirstAfter(body, post);
    match IndexOf(x, JsonFence)
    case None =>
      HeadBeforeFence(body, post);
    case Some(j) =>
      NoJsonFenceRightAfter(body, post);
      if j == |body| {
        assert x[..j] == body;
        HeadOfFenceFree(body);
      } else {
        assert x[..j] == body + Fence + post[..j - |body| - 3];
        HeadBeforeFence(body, post[..j - |body| - 3]);
      }
  }

  /** In "<body>```<post>" whose first "```" follows `body`, with `post` not starting with a
      backtick, a "```json" can only start at that fence or after it. */
  lemma NoJsonFenceRightAfter(body: string, post: string)
    requires IndexOf(body + Fence + post, Fence) == Some(|body|)
    requires post == [] || post[0] != '`'
    ensures forall k: nat :: k < |body| + 3 && k != |body| ==> !OccursAt(body + Fence + post, JsonFence, k)
  {
    var x := body + Fence + post;
    forall k: nat | k < |body| && k + |JsonFence| <= |x|
      ensures !OccursAt(x, JsonFence, k)
    {
      assert !OccursAt(x, Fence, k);
      assert x[k..k + |JsonFence|][..|Fence|] == x[k..k + |Fence|];
    }
    forall k: nat | |body| < k < |body| + 3 && k + |JsonFence| <= |x|
      ensures !OccursAt(x, JsonFence, k)
    {
      assert x[|body| + 3] == post[0];
      assert x[k..k + |JsonFence|][|body| + 3 - k] == x[|body| + 3];
    }
  }

  /** A "```json" block that is never closed runs to the end of the reply. */
  lemma UnclosedJsonBlock(pre: string, body: string)
    requires !Contains(pre, JsonFence) && !Contains(body, Fence)
    ensures ExtractFenced(pre + JsonFence + body) == Strip(body)
  {
    var c := pre + JsonFence + body;
    JsonFenceFirstAfter(pre, body);
    SecondField(c, JsonFence, pre, body);
    assert !Contains(body, JsonFence) by {
      forall k: nat
        ensures !OccursAt(body, JsonFence, k)
      {
        NoOccurrence(body, Fence, k);
        if k + |JsonFence| <= |body| {
          assert body[k..k + |JsonFence|][..|Fence|] == body[k..k + |Fence|];
        }
      }
      ContainsIff(body, JsonFence);
    }
  }

  /** Without a "```json" anywhere, the first plain block "<pre>```<body>```<post>" yields
      its stripped body. */
  lemma FencedPlainBlock(pre: string, body: string, post: string)
    requires !Contains(pre + "``", Fence) && !Contains(body + "``", Fence)
    requires !Contains(pre + Fence + body + Fence + post, JsonFence)
    ensures ExtractFenced(pre + Fence + body + Fence + post) == Strip(body)
  {
    var x := body + Fence + post;
    var c := pre + Fence + x;
    assert pre + Fence + body + Fence + post == c;
    FenceFirstAfter(pre, x);
    SecondField(c, Fence, pre, x);
    HeadBeforeFence(body, post);
  }

  /** The step splits on "```json" before it looks for "```", so it does not always cut at the
      first "```" after the opening fence: when two backticks run straight into a second
      "```json", the cut falls at that "```json" and the two backticks stay in the payload
      (with body "a", "```json a`````json" gives "a``", not "a"). */
  lemma BackticksBeforeSecondJsonFence(body: string)
    requires NoBacktick(body)
    ensures ExtractFenced(JsonFence + body + "``" + JsonFence) == Strip(body + "``")
  {
    var rest := body + "``" + JsonFence;
    var c := JsonFence + rest;
    assert JsonFence + body + "``" + JsonFence == [] + JsonFence + rest;
    FirstAfterBacktickFree([], JsonFence, rest);
    SecondField(c, JsonFence, [], rest);
    SecondJsonFenceAt(body);
    assert rest[..|body| + 2] == body + "``";
    TwoBackticksNoFence(body);
  }

  /** In "<body>`````json" the first "```json" starts two characters after `body`. */
  lemma SecondJsonFenceAt(body: string)
    requires NoBacktick(body)
    ensures IndexOf(body + "``" + JsonFence, JsonFence) == Some(|body| + 2)
  {
    var rest := body + "``" + JsonFence;
    forall j: nat | j < |body|
      ensures !OccursAt(rest, JsonFence, j)
    {
      assert rest[j] == body[j];
      assert rest[j..j + |JsonFence|][0] == rest[j];
    }
    forall j: nat | |body| <= j < |body| + 2
      ensures !OccursAt(rest, JsonFence, j)
    {
      assert rest[j + 3] == '`';
      assert rest[j..j + |JsonFence|][3] == rest[j + 3];
    }
    assert rest[|body| + 2..|body| + 9] == JsonFence;
    FirstOccurrence(rest, JsonFence, |body| + 2);
  }

  /** Backtick-free text followed by two backticks holds no fence. */
  lemma TwoBackticksNoFence(body: string)
    requires NoBacktick(body)
    ensures !Contains(body + "``", Fence)
  {
    var head := body + "``";
    forall k: nat
      ensures !OccursAt(head, Fence, k)
    {
      if k < |body| && k + 3 <= |head| {
        assert head[k] == body[k];
        assert head[k..k + 3][0] == head[k];
      }
    }
  }

  /** The parser decodes exactly the payload of a fenced "```json" reply. */
  lemma ParsesFencedPayload(pre: string, body: string, post: string, decode: string -> Option<seq<ParsedItem>>)
    requires !Contains(pre, JsonFence) && !Contains(body + "``", Fence)
    requires post == [] || post[0] != '`'
    ensures ParseFoodAmount(Some(pre + JsonFence + body + Fence + post), decode)
              == decode(Strip(body)).GetOr([])
  {
    FencedJsonBlock(pre, body, post);
  }
}
