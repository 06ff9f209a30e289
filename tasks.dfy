/** The task record of the to-do list, the edits `ToDoApp` applies to one element of
    its list, and the whitespace stripping `add_task` applies to the typed text. */
module Tasks {

  /** The answer of a dialog: `None` when it was cancelled. */
  datatype Option<T> = None | Some(value: T)

  /** One entry of `self.tasks`: the three string fields of the source's dict. */
  datatype Task = Task(text: string, status: string, due: string)

  const InProgress: string := "in-progress"
  const Done: string := "done"

  /** The status `toggle_status` writes: "in-progress" becomes "done", any other value
      (including "done" and a status loaded from a hand-edited file) becomes "in-progress". */
  function Toggled(status: string): (r: string)
    ensures r == Done <==> status == InProgress
    ensures r == InProgress <==> status != InProgress
  {
    if status == InProgress then Done else InProgress
  }

  /** Toggling is its own inverse on the two statuses the program writes. */
  lemma ToggledTwice(status: string)
    requires status == InProgress || status == Done
    ensures Toggled(Toggled(status)) == status
  {
  }

  /** The list after `self.tasks[i]["status"] = ...` in `toggle_status`. */
  function ToggleAt(s: seq<Task>, i: nat): (r: seq<Task>)
    requires i < |s|
    ensures |r| == |s|
    ensures r[i].text == s[i].text && r[i].due == s[i].due
    ensures r[i].status == Toggled(s[i].status)
    ensures forall j :: 0 <= j < |s| && j != i ==> r[j] == s[j]
  {
    s[i := s[i].(status := Toggled(s[i].status))]
  }

  /** Toggling the same element twice restores the list when its status is one of the two. */
  lemma ToggleAtTwice(s: seq<Task>, i: nat)
    requires i < |s|
    requires s[i].status == InProgress || s[i].status == Done
    ensures ToggleAt(ToggleAt(s, i), i) == s
  {
    var once := ToggleAt(s, i);
    ToggledTwice(s[i].status);
    assert ToggleAt(once, i)[i] == s[i];
  }

  /** The list after `self.tasks[i]["text"] = text` in `edit_task`. */
  function EditAt(s: seq<Task>, i: nat, text: string): (r: seq<Task>)
    requires i < |s|
    ensures |r| == |s|
    ensures r[i] == Task(text, s[i].status, s[i].due)
    ensures forall j :: 0 <= j < |s| && j != i ==> r[j] == s[j]
  {
    s[i := s[i].(text := text)]
  }

  /** The list after `del self.tasks[i]` in `delete_task`. */
  function RemoveAt(s: seq<Task>, i: nat): (r: seq<Task>)
    requires i < |s|
    ensures |r| == |s| - 1
    ensures forall j :: 0 <= j < i ==> r[j] == s[j]
    ensures forall j :: i <= j < |r| ==> r[j] == s[j + 1]
    ensures multiset(r) + multiset{s[i]} == multiset(s)
  {
    assert s == s[..i] + [s[i]] + s[i + 1..];
    s[..i] + s[i + 1..]
  }

  /** Python's `str.isspace()` for one character: the Unicode whitespace
      that `str.strip()` removes. */
  predicate IsSpace(c: char): (r: bool)
    ensures c == ' ' || c == '\t' || c == '\n' || c == '\r' ==> r
    ensures r ==> !('0' <= c <= '9' || 'a' <= c <= 'z' || 'A' <= c <= 'Z')
    ensures c == '\U{200B}' ==> !r
  {
    || '\t' <= c <= '\r'
    || '\U{1C}' <= c <= '\U{1F}'
    || c == ' '
    || c == '\U{85}'
    || c == '\U{A0}'
    || c == '\U{1680}'
    || '\U{2000}' <= c <= '\U{200A}'
    || c == '\U{2028}'
    || c == '\U{2029}'
    || c == '\U{202F}'
    || c == '\U{205F}'
    || c == '\U{3000}'
  }

  predicate AllSpace(s: string)
  {
    forall k :: 0 <= k < |s| ==> IsSpace(s[k])
  }

  /** `s` without its leading whitespace: a suffix of `s` preceded only by whitespace. */
  function TrimStart(s: string): (r: string)
    ensures |r| <= |s| && r == s[|s| - |r|..]
    ensures AllSpace(s[..|s| - |r|])
    ensures r != [] ==> !IsSpace(r[0])
  {
    if s != [] && IsSpace(s[0]) then TrimStart(s[1..]) else s
  }

  /** `s` without its trailing whitespace: a prefix of `s` followed only by whitespace. */
  function TrimEnd(s: string): (r: string)
    ensures |r| <= |s| && r == s[..|r|]
    ensures AllSpace(s[|r|..])
    ensures r != [] ==> !IsSpace(r[|r| - 1])
  {
    if s != [] && IsSpace(s[|s| - 1]) then
      var r := TrimEnd(s[..|s| - 1]);
      assert s[|r|..] == s[..|s| - 1][|r|..] + [s[|s| - 1]];
      r
    else
      s
  }

  /** Python's `str.strip()` with no argument (`task_entry.get().strip()`). */
  function Strip(s: string): (r: string)
    ensures |r| <= |s|
    ensures r == [] <==> AllSpace(s)
    ensures r != [] ==> !IsSpace(r[0]) && !IsSpace(r[|r| - 1])
  {
    var t := TrimStart(s);
    assert s == s[..|s| - |t|] + t;
    TrimEnd(t)
  }

  lemma {:induction false} TrimStartOfSpaces(pre: string, rest: string)
    requires AllSpace(pre)
    requires rest == [] || !IsSpace(rest[0])
    ensures TrimStart(pre + rest) == rest
    decreases |pre|
  {
    if pre != [] {
      assert (pre + rest)[1..] == pre[1..] + rest;
      TrimStartOfSpaces(pre[1..], rest);
    } else {
      assert pre + rest == rest;
    }
  }

  lemma {:induction false} TrimEndOfSpaces(rest: string, post: string)
    requires AllSpace(post)
    requires rest == [] || !IsSpace(rest[|rest| - 1])
    ensures TrimEnd(rest + post) == rest
    decreases |post|
  {
    if post != [] {
      var p := post[..|post| - 1];
      assert (rest + post)[..|rest + post| - 1] == rest + p;
      TrimEndOfSpaces(rest, p);
    } else {
      assert rest + post == rest;
    }
  }

  /** `Strip` removes exactly the surrounding whitespace: whatever lies between a
      whitespace prefix and a whitespace suffix, if it neither starts nor ends with
      whitespace, is what `Strip` returns. */
  lemma StripExact(pre: string, mid: string, post: string)
    requires AllSpace(pre) && AllSpace(post)
    requires mid != [] ==> !IsSpace(mid[0]) && !IsSpace(mid[|mid| - 1])
    ensures Strip(pre + mid + post) == mid
  {
    if mid == [] {
      assert pre + mid + post == pre + post;
      assert AllSpace(pre + post) by {
        forall k | 0 <= k < |pre + post| ensures IsSpace((pre + post)[k]) {
          if k < |pre| { assert (pre + post)[k] == pre[k]; } else { assert (pre + post)[k] == post[k - |pre|]; }
        }
      }
    } else {
      assert pre + mid + post == pre + (mid + post);
      TrimStartOfSpaces(pre, mid + post);
      TrimEndOfSpaces(mid, post);
    }
  }

  /** Stripping twice is stripping once. */
  lemma StripIdempotent(s: string)
    ensures Strip(Strip(s)) == Strip(s)
  {
    var r, none := Strip(s), "";
    assert none + r + none == r;
    StripExact(none, r, none);
  }
}
