/** The add form: `String.prototype.trim` and the submit handler that dispatches
    ADD_TODO only for an input with something other than white space in it. */
module AddForm {
  import opened Todos

  /** The characters `trim` removes: ECMAScript's WhiteSpace (tab, vertical tab,
      form feed, no-break space, byte order mark and the Unicode space separators
      of category Zs, as of Unicode 15) and its LineTerminator characters. */
  predicate IsWhitespace(c: char)
  {
    || c == '\t' || c == '\U{000B}' || c == '\U{000C}' || c == ' ' || c == '\U{00A0}' || c == '\U{FEFF}'
    || c == '\U{1680}' || '\U{2000}' <= c <= '\U{200A}' || c == '\U{202F}' || c == '\U{205F}' || c == '\U{3000}'
    || c == '\n' || c == '\r' || c == '\U{2028}' || c == '\U{2029}'
  }

  /** Every character is white space (the empty string included). */
  predicate IsBlank(s: string)
  {
    forall i :: 0 <= i < |s| ==> IsWhitespace(s[i])
  }

  /** Drops the leading white space: the result is the longest suffix of `s`
      that does not start with white space. */
  function TrimStart(s: string): (r: string)
    ensures |r| <= |s| && r == s[|s| - |r|..]
    ensures r == [] || !IsWhitespace(r[0])
    ensures forall i :: 0 <= i < |s| - |r| ==> IsWhitespace(s[i])
  {
    if s != [] && IsWhitespace(s[0]) then TrimStart(s[1..]) else s
  }

  /** Drops the trailing white space: the result is the longest prefix of `s`
      that does not end with white space. */
  function TrimEnd(s: string): (r: string)
    ensures |r| <= |s| && r == s[..|r|]
    ensures r == [] || !IsWhitespace(r[|r| - 1])
    ensures forall i :: |r| <= i < |s| ==> IsWhitespace(s[i])
  {
    if s != [] && IsWhitespace(s[|s| - 1]) then TrimEnd(s[..|s| - 1]) else s
  }

  /** `s.trim()`: empty exactly when `s` is blank; otherwise it starts and ends
      with a character that is not white space. */
  function Trim(s: string): (r: string)
    ensures |r| <= |s|
    ensures r == [] <==> IsBlank(s)
    ensures r != [] ==> !IsWhitespace(r[0]) && !IsWhitespace(r[|r| - 1])
  {
    var u := TrimStart(s);
    var r := TrimEnd(u);
    assert u != [] ==> r != [] && r[0] == u[0] == s[|s| - |u|] by {
      if u != [] {
        assert !IsWhitespace(u[0]);
      }
    }
    r
  }

  /** The state the submit handler reads and writes: the list and the input box. */
  datatype Form = Form(todos: seq<Todo>, newTodo: string)

  /** `handleAddTodo`: a blank input changes nothing; any other input is
      dispatched as ADD_TODO with its untrimmed text, and the input is cleared. */
  function HandleAddTodo(f: Form): (r: Form)
    ensures IsBlank(f.newTodo) ==> r == f
    ensures !IsBlank(f.newTodo) ==> r == Form(Reduce(f.todos, AddTodo(f.newTodo)), "")
    ensures !IsBlank(f.newTodo) ==>
      |r.todos| == |f.todos| + 1 && r.todos[..|f.todos|] == f.todos &&
      r.todos[|f.todos|] == Todo(|f.todos| + 1, f.newTodo, false)
  {
    if Trim(f.newTodo) != [] then Form(Reduce(f.todos, AddTodo(f.newTodo)), "") else f
  }
}
