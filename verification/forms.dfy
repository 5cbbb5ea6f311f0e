/** `PostForm` (posts/forms.py): a model form over the fields `text` and
    `group` of `Post`. Cleaning follows the field types: `text` is a required
    text field whose value is stripped of surrounding whitespace; `group` is
    an optional choice among the existing groups. */
module Forms {
  import opened Wrappers
  import opened Models

  /** Submitted form data. `group` is the selected primary key; `None` stands
      for an empty or missing selection. */
  datatype PostForm = PostForm(text: string, group: Option<int>)

  /** `form.cleaned_data` of a valid form. */
  datatype CleanedPost = CleanedPost(text: string, group: Option<GroupId>)

  /** Python's `str.isspace`, by code point. */
  predicate IsSpace(c: char)
  {
    var n := c as int;
    || (0x09 <= n <= 0x0D) || (0x1C <= n <= 0x20) || n == 0x85 || n == 0xA0 || n == 0x1680
    || (0x2000 <= n <= 0x200A) || n == 0x2028 || n == 0x2029 || n == 0x202F || n == 0x205F
    || n == 0x3000
  }

  /** Neither starts nor ends with whitespace. */
  predicate Trimmed(s: string)
  {
    s == [] || (!IsSpace(s[0]) && !IsSpace(s[|s| - 1]))
  }

  /** How many whitespace characters open the text. */
  function LeadingSpaces(s: string): (n: nat)
    ensures n <= |s|
    ensures forall k :: 0 <= k < n ==> IsSpace(s[k])
    ensures n == |s| || !IsSpace(s[n])
  {
    if s != [] && IsSpace(s[0]) then 1 + LeadingSpaces(s[1..]) else 0
  }

  /** `str.rstrip()`. */
  function StripRight(s: string): (r: string)
    ensures |r| <= |s| && r == s[..|r|]
    ensures forall k :: |r| <= k < |s| ==> IsSpace(s[k])
    ensures r == [] || !IsSpace(r[|r| - 1])
  {
    if s != [] && IsSpace(s[|s| - 1]) then StripRight(s[..|s| - 1]) else s
  }

  /** `str.strip()`: the text with the whitespace around it removed, and
      nothing else. */
  function Strip(s: string): (r: string)
    ensures Trimmed(r)
    ensures LeadingSpaces(s) + |r| <= |s|
    ensures r == s[LeadingSpaces(s)..LeadingSpaces(s) + |r|]
    ensures forall k :: LeadingSpaces(s) + |r| <= k < |s| ==> IsSpace(s[k])
  {
    var i := LeadingSpaces(s);
    StripRight(s[i..])
  }

  /** Stripping changes a text exactly when whitespace surrounds it. */
  lemma {:induction false} StripFixesTrimmed(s: string)
    ensures Strip(s) == s <==> Trimmed(s)
  {
    if Trimmed(s) && s != [] {
      assert LeadingSpaces(s) == 0;
      assert s[0..] == s;
    }
  }

  /** Stripping twice strips no more than once. */
  lemma StripIdempotent(s: string)
    ensures Strip(Strip(s)) == Strip(s)
  {
    StripFixesTrimmed(Strip(s));
  }

  /** `form.is_valid()` and `form.cleaned_data`: `None` when the form has
      errors (empty text after stripping, or a group that does not exist). */
  function Clean(form: PostForm, groups: map<GroupId, Group>): (r: Option<CleanedPost>)
    ensures r.Some? <==>
      && Strip(form.text) != []
      && (form.group.None? || (form.group.value >= 0 && form.group.value as nat in groups))
    ensures r.Some? ==> r.value.text == Strip(form.text)
    ensures r.Some? ==> (r.value.group.Some? <==> form.group.Some?)
    ensures r.Some? && r.value.group.Some? ==>
      r.value.group.value in groups && r.value.group.value as int == form.group.value
  {
    var text := Strip(form.text);
    if text == [] then None
    else
      match form.group
      case None => Some(CleanedPost(text, None))
      case Some(k) =>
        if k >= 0 && k as nat in groups then Some(CleanedPost(text, Some(k as nat))) else None
  }

  /** The form bound to an existing post, as the edit page first shows it. */
  function InitialForm(p: Post): (f: PostForm)
    ensures f.text == p.text
    ensures f.group.Some? <==> p.group.Some?
    ensures p.group.Some? ==> f.group.value == p.group.value as int
  {
    PostForm(p.text, match p.group case None => None case Some(g) => Some(g as int))
  }

  /** Submitting the edit form unchanged is accepted and yields the post's
      own text and group back, when its text is non-empty and already
      stripped and its group exists. */
  lemma InitialFormRoundTrip(p: Post, groups: map<GroupId, Group>)
    requires p.text != [] && Trimmed(p.text)
    requires p.group.Some? ==> p.group.value in groups
    ensures Clean(InitialForm(p), groups) == Some(CleanedPost(p.text, p.group))
  {
    StripFixesTrimmed(p.text);
  }
}
