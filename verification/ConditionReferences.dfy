/**
 * Property references inside an operand: expansion is substitution in a template.
 */
module ConditionReferences {
  import opened Wrappers
  import opened Ascii
  import opened ConditionGrammar
  import opened ConditionTheory

  // ---------------------------------------------------------------- one step of the expansion

  /** What has been expanded, in front of what will be. */
  function Prefixed(done: string, rest: Result<string, ConditionError>): Result<string, ConditionError> {
    match rest
    case Failure(e) => Failure(e)
    case Success(value) => Success(done + value)
  }

  lemma PrefixedTwice(done: string, plain: string, value: string, rest: Result<string, ConditionError>)
    ensures Prefixed(done, Prefixed(plain + value, rest)) == Prefixed(done + plain + value, rest)
  {
    if rest.Success? {
      assert done + (plain + value + rest.value) == done + plain + value + rest.value;
    }
  }

  lemma PrefixedByNothing(rest: Result<string, ConditionError>)
    ensures Prefixed("", rest) == rest
  {
    assert rest.Success? ==> "" + rest.value == rest.value;
  }

  lemma NoReference()
    ensures FindReference("").None?
  {
  }

  lemma ExpandSteps(ctx: Context, s: string)
    ensures var first := FindReference(s);
            if first.None? then Expand(ctx, s) == Success(s) else
              var close := Find(s[first.value + 2..], ')');
              if close.None? then Expand(ctx, s) == Failure(UnterminatedReference) else
                var value := PropertyValue(ctx, s[first.value + 2..first.value + 2 + close.value]);
                if value.Failure? then Expand(ctx, s) == Failure(value.error) else
                  Expand(ctx, s) == Prefixed(s[..first.value] + value.value, Expand(ctx, s[first.value + close.value + 3..]))
  {
    hide FindReference, Find, PropertyValue;
  }

  // ---------------------------------------------------------------- templates

  /** A value as pieces of plain text around closed references. */
  datatype Template = Plain(text: string) | Splice(text: string, name: string, rest: Template)

  function TemplateText(t: Template): string {
    match t
    case Plain(text) => text
    case Splice(text, name, rest) => text + ("$(" + (name + (")" + TemplateText(rest))))
  }

  predicate TemplateFits(t: Template) {
    match t
    case Plain(text) => FindReference(text).None?
    case Splice(text, name, rest) => FindReference(text).None? && ')' !in name && TemplateFits(rest)
  }

  /** Plain text as it stands, each reference replaced; none if a property is unknown. */
  function TemplateValue(ctx: Context, t: Template): Option<string> {
    match t
    case Plain(text) => Some(text)
    case Splice(text, name, rest) =>
      var value, tail := PropertyValue(ctx, name), TemplateValue(ctx, rest);
      if value.Success? && tail.Some? then Some(text + value.value + tail.value) else None
  }

  lemma {:induction false} TemplateExpands(ctx: Context, t: Template)
    requires TemplateFits(t) && TemplateValue(ctx, t).Some?
    ensures Expand(ctx, TemplateText(t)) == Success(TemplateValue(ctx, t).value)
  {
    hide Expand, FindReference, Find, PropertyValue;
    ExpandSteps(ctx, TemplateText(t));
    if t.Splice? {
      TemplateExpands(ctx, t.rest);
      SpliceBegins(t.text, t.name, TemplateText(t.rest));
    }
  }

  lemma SpliceBegins(text: string, name: string, rest: string)
    requires FindReference(text).None? && ')' !in name
    ensures var s := text + ("$(" + (name + (")" + rest)));
            && FindReference(s) == Some(|text|) && Find(s[|text| + 2..], ')') == Some(|name|)
            && s[..|text|] == text && s[|text| + 2..|text| + 2 + |name|] == name && s[|text| + |name| + 3..] == rest
  {
    hide FindReference, Find;
    var tail := name + (")" + rest);
    FirstReference(text, tail);
    BehindReference(text, tail);
    BehindName(name, rest);
    SpliceCloses(text + ("$(" + tail), tail, text, name, rest);
  }

  lemma SpliceCloses(s: string, tail: string, text: string, name: string, rest: string)
    requires |text| + 2 <= |s| && s[|text| + 2..] == tail && ')' !in name
    requires |name| < |tail| && tail[..|name|] == name && tail[|name|] == ')' && tail[|name| + 1..] == rest
    ensures Find(s[|text| + 2..], ')') == Some(|name|)
    ensures s[|text| + 2..|text| + 2 + |name|] == name && s[|text| + |name| + 3..] == rest
  {
    hide Find;
    FindIs(tail, ')', |name|);
    SliceBehind(s, tail, |text| + 2, |name|);
  }

  lemma BehindReference(text: string, tail: string)
    ensures (text + ("$(" + tail))[|text| + 2..] == tail && (text + ("$(" + tail))[..|text|] == text
  {
  }

  lemma BehindName(name: string, rest: string)
    ensures (name + (")" + rest))[..|name|] == name && (name + (")" + rest))[|name|] == ')'
    ensures (name + (")" + rest))[|name| + 1..] == rest
  {
  }

  lemma SliceBehind(s: string, tail: string, at: nat, n: nat)
    requires at <= |s| && s[at..] == tail && n < |tail|
    ensures s[at..at + n] == tail[..n] && s[at + n + 1..] == tail[n + 1..]
  {
  }

  lemma FirstReference(text: string, behind: string)
    requires FindReference(text).None?
    ensures FindReference(text + ("$(" + behind)) == Some(|text|)
  {
    var s := text + ("$(" + behind);
    forall i | 0 <= i < |text| ensures !OpensReference(s[i..]) {
      NotYet(text, behind, i);
    }
    assert s[|text|..] == "$(" + behind && ("$(" + behind)[..2] == "$(";
    FindReferenceIs(s, |text|);
  }

  lemma NotYet(text: string, behind: string, i: nat)
    requires FindReference(text).None? && i < |text|
    ensures !OpensReference((text + ("$(" + behind))[i..])
  {
    hide FindReference;
    var s := text + ("$(" + behind);
    FindReferenceFinds(text);
    assert !OpensReference(text[i..]);
    if i + 1 < |text| {
      assert s[i..][..2] == text[i..][..2];
    } else {
      assert s[i..][..2][1] == '$';
    }
  }

  /** The search finds the first place where a reference opens, if there is one. */
  lemma {:induction false} FindReferenceFinds(s: string)
    ensures var r := FindReference(s);
            if r.Some? then OpensReference(s[r.value..]) && forall i | 0 <= i < r.value :: !OpensReference(s[i..])
            else forall i | 0 <= i <= |s| :: !OpensReference(s[i..])
  {
    assert s[0..] == s;
    if s != "" && !OpensReference(s) {
      FindReferenceFinds(s[1..]);
      assert forall i | 1 <= i <= |s| :: s[i..] == s[1..][i - 1..];
    }
  }

  lemma FindReferenceIs(s: string, n: nat)
    requires n <= |s| && OpensReference(s[n..]) && forall i | 0 <= i < n :: !OpensReference(s[i..])
    ensures FindReference(s) == Some(n)
  {
    FindReferenceFinds(s);
    hide OpensReference;
    assert OpensReference(s[n..]);
    var r := FindReference(s);
    assert r.Some? ==> OpensReference(s[r.value..]);
  }

  /** The template a value was expanded as. */
  ghost function ReadTemplate(ctx: Context, s: string): (t: Template)
    requires Expand(ctx, s).Success?
    decreases |s|
  {
    match FindReference(s)
    case None => Plain(s)
    case Some(first) =>
      var close := Find(s[first + 2..], ')').value;
      Splice(s[..first], s[first + 2..first + 2 + close], ReadTemplate(ctx, s[first + close + 3..]))
  }

  lemma {:induction false} ReadTemplateSound(ctx: Context, s: string)
    requires Expand(ctx, s).Success?
    ensures var t := ReadTemplate(ctx, s);
            TemplateFits(t) && TemplateText(t) == s && TemplateValue(ctx, t) == Some(Expand(ctx, s).value)
    decreases |s|
  {
    hide Expand, FindReference, Find, PropertyValue, ReadTemplate, OpensReference, TemplateText, TemplateFits, TemplateValue;
    ExpandSteps(ctx, s);
    ReadSteps(ctx, s);
    if FindReference(s).None? {
      PlainSound(ctx, s);
    } else {
      var first := FindReference(s).value;
      var close := Find(s[first + 2..], ')').value;
      var text, name, behind := s[..first], s[first + 2..first + 2 + close], s[first + close + 3..];
      ReadTemplateSound(ctx, behind);
      FindReferenceFinds(s);
      ReferenceSplits(s, first, close);
      NoneBefore(s, first);
      SpliceSound(ctx, s, text, name, ReadTemplate(ctx, behind));
    }
  }

  lemma PlainSound(ctx: Context, s: string)
    requires FindReference(s).None?
    ensures TemplateFits(Plain(s)) && TemplateText(Plain(s)) == s && TemplateValue(ctx, Plain(s)) == Some(s)
  {
  }

  lemma SpliceSound(ctx: Context, s: string, text: string, name: string, rest: Template)
    requires s == text + ("$(" + (name + (")" + TemplateText(rest)))) && FindReference(text).None? && ')' !in name
    requires TemplateFits(rest) && TemplateValue(ctx, rest).Some? && PropertyValue(ctx, name).Success?
    ensures var t := Splice(text, name, rest);
            && TemplateFits(t) && TemplateText(t) == s
            && TemplateValue(ctx, t) == Some(text + PropertyValue(ctx, name).value + TemplateValue(ctx, rest).value)
  {
    hide FindReference, PropertyValue;
  }

  lemma ReadSteps(ctx: Context, s: string)
    requires Expand(ctx, s).Success?
    ensures var first := FindReference(s);
            if first.None? then ReadTemplate(ctx, s) == Plain(s) else
              var close := Find(s[first.value + 2..], ')');
              && close.Some? && Expand(ctx, s[first.value + close.value + 3..]).Success?
              && ReadTemplate(ctx, s) == Splice(s[..first.value], s[first.value + 2..first.value + 2 + close.value],
                                                ReadTemplate(ctx, s[first.value + close.value + 3..]))
  {
    hide FindReference, Find, PropertyValue;
  }

  lemma ReferenceSplits(s: string, first: nat, close: nat)
    requires first + 2 <= |s| && OpensReference(s[first..]) && Find(s[first + 2..], ')') == Some(close)
    ensures s == s[..first] + ("$(" + (s[first + 2..first + 2 + close] + (")" + s[first + close + 3..])))
    ensures ')' !in s[first + 2..first + 2 + close]
  {
    hide Find;
    assert s[first + 2..][..close] == s[first + 2..first + 2 + close];
    assert s[first..][..2] == "$(" && s[first..] == s[first..][..2] + s[first + 2..];
    assert s[first + 2..] == s[first + 2..first + 2 + close] + (")" + s[first + close + 3..]);
  }

  lemma NoneBefore(s: string, first: nat)
    requires FindReference(s) == Some(first)
    ensures FindReference(s[..first]).None?
  {
    FindReferenceFinds(s);
    FindReferenceFinds(s[..first]);
    forall i | 0 <= i <= first ensures !OpensReference(s[..first][i..]) {
      assert i < first ==> !OpensReference(s[i..]);
      assert i + 2 <= first ==> s[..first][i..][..2] == s[i..][..2];
    }
  }

  /** Expansion succeeds exactly on closed references to the known properties, and then replaces each by its value. */
  lemma ExpandIsSubstitution(ctx: Context, s: string, value: string)
    ensures Expand(ctx, s) == Success(value) <==>
            exists t :: TemplateFits(t) && TemplateText(t) == s && TemplateValue(ctx, t) == Some(value)
  {
    if Expand(ctx, s) == Success(value) {
      ReadTemplateSound(ctx, s);
    }
    forall t | TemplateFits(t) && TemplateText(t) == s && TemplateValue(ctx, t).Some?
      ensures Expand(ctx, s) == Success(TemplateValue(ctx, t).value)
    {
      TemplateExpands(ctx, t);
    }
  }
}
