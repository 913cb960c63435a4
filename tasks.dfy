/** The task record shared by both front ends, the partial records that are
    spread over it, and the title check both of them apply before writing. */
module Tasks {

  datatype Option<T> = None | Some(value: T)

  /** One TODO entry `{id, title, completed}`. In the source the id is taken
      from the clock at creation; here the caller supplies it. */
  datatype Task = Task(id: int, title: string, completed: bool)

  /** A partial record, as in `{ ...task, ...patch }`: a field left `None` is
      absent from the object literal and so keeps the task's own value. */
  datatype Patch = Patch(id: Option<int>, title: Option<string>, completed: Option<bool>)

  /** `{ ...t, ...p }`: every field present in `p` wins over the one in `t`. */
  function Merge(t: Task, p: Patch): (r: Task) {
    Task(
      if p.id.Some? then p.id.value else t.id,
      if p.title.Some? then p.title.value else t.title,
      if p.completed.Some? then p.completed.value else t.completed)
  }

  /** The patch `{ title: title }`. */
  function TitlePatch(title: string): (r: Patch) {
    Patch(None, Some(title), None)
  }

  /** The patch `{ completed: completed }`. */
  function CompletedPatch(completed: bool): (r: Patch) {
    Patch(None, None, Some(completed))
  }

  /** A whole record used as a patch (the full body of a PUT request). */
  function FullPatch(t: Task): (r: Patch) {
    Patch(Some(t.id), Some(t.title), Some(t.completed))
  }

  /** `new Task(title)` in the class-based front end, and the object literal of
      the add handler in the plain one: a fresh task is never completed. */
  function NewTask(id: int, title: string): (r: Task) {
    Task(id, title, false)
  }

  lemma MergeTitlePatch(t: Task, title: string)
    ensures Merge(t, TitlePatch(title)) == t.(title := title)
  {
  }

  lemma MergeCompletedPatch(t: Task, completed: bool)
    ensures Merge(t, CompletedPatch(completed)) == t.(completed := completed)
  {
  }

  lemma MergeFullPatch(t: Task, u: Task)
    ensures Merge(t, FullPatch(u)) == u
  {
  }

  /** The characters `String.prototype.trim` strips: the ECMAScript WhiteSpace
      code points (tab, vertical tab, form feed, the byte order mark and the
      Unicode space separators) and the four LineTerminator code points. */
  predicate IsWhitespace(c: char) {
    || c == '\t' || c == '\n' || c == '\U{000B}' || c == '\U{000C}' || c == '\r'
    || c == ' ' || c == '\U{00A0}' || c == '\U{1680}'
    || ('\U{2000}' <= c <= '\U{200A}')
    || c == '\U{2028}' || c == '\U{2029}' || c == '\U{202F}' || c == '\U{205F}'
    || c == '\U{3000}' || c == '\U{FEFF}'
  }

  /** `s` without its leading white space. */
  function TrimStart(s: string): (r: string)
    ensures |r| <= |s| && r == s[|s| - |r|..]
    ensures forall i :: 0 <= i < |s| - |r| ==> IsWhitespace(s[i])
    ensures r == [] || !IsWhitespace(r[0])
  {
    if s != [] && IsWhitespace(s[0]) then TrimStart(s[1..]) else s
  }

  /** `s` without its trailing white space. */
  function TrimEnd(s: string): (r: string)
    ensures |r| <= |s| && r == s[..|r|]
    ensures forall i :: |r| <= i < |s| ==> IsWhitespace(s[i])
    ensures r == [] || !IsWhitespace(r[|r| - 1])
  {
    if s != [] && IsWhitespace(s[|s| - 1]) then TrimEnd(s[..|s| - 1]) else s
  }

  /** `s.trim()`. */
  function Trim(s: string): (r: string) {
    TrimEnd(TrimStart(s))
  }

  /** The test `!title || title.trim() === ''` that the add handlers and the
      edit commits apply to a title. */
  predicate IsBlank(title: string) {
    title == "" || Trim(title) == ""
  }

  /** A title is blank exactly when every one of its characters is white space. */
  lemma BlankIffAllWhitespace(title: string)
    ensures IsBlank(title) <==> forall i :: 0 <= i < |title| ==> IsWhitespace(title[i])
  {
  }

  /** Trimming drops only white space from the two ends and leaves a title
      that starts and ends with a visible character. */
  lemma TrimIsInfix(s: string)
    ensures exists i, j :: 0 <= i <= j <= |s| && Trim(s) == s[i..j]
    ensures Trim(s) == [] || (!IsWhitespace(Trim(s)[0]) && !IsWhitespace(Trim(s)[|Trim(s)| - 1]))
  {
    var u := TrimStart(s);
    var r := TrimEnd(u);
    var i := |s| - |u|;
    assert r == s[i..i + |r|];
    if r != [] {
      assert r[0] == u[0];
    }
  }
}
