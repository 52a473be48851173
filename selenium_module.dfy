/** The logic of the Selenium connector that belongs to the connector itself:
    validating the seven optional find criteria of `findElements` and
    `findElement`, choosing the locator the single supplied criterion stands for,
    and turning one evaluation of the `until` condition into the boolean the
    browser wait polls. The browser driver is an opaque sink: a lookup is modelled
    as the request (locator and which of the two driver calls) that would be
    handed to it. */
module SeleniumModule {
  import opened Wrappers

  // ---------------------------------------------------------------------------
  // Find criteria
  // ---------------------------------------------------------------------------

  /** The seven optional parameters of `findElements` / `findElement`;
      `None` stands for a Java `null` argument. */
  datatype Criteria = Criteria(
    id: Option<string>,
    linkText: Option<string>,
    partialLinkText: Option<string>,
    name: Option<string>,
    tagName: Option<string>,
    xpathExpression: Option<string>,
    className: Option<string>)

  /** The Selenium locator strategies (`By.id`, `By.linkText`, ...). */
  datatype LocatorKind = Id | LinkText | PartialLinkText | Name | TagName | XPath | ClassName

  /** A locator `By.<kind>(value)`. */
  datatype Locator = Locator(kind: LocatorKind, value: string)

  /** The driver call a find operation issues: `findElements` or `findElement`. */
  datatype Lookup = FindAll(locator: Locator) | FindFirst(locator: Locator)

  /** The exceptions the find operations throw. */
  datatype Error = IllegalArgument(message: string)

  const NoCriteriaMessage: string := "At least one find criteria must be specified."
  const SeveralCriteriaMessage: string := "Only one attribute can be used"

  /** The parameter a locator kind is read from. */
  function Field(c: Criteria, k: LocatorKind): (v: Option<string>)
  {
    match k
    case Id => c.id
    case LinkText => c.linkText
    case PartialLinkText => c.partialLinkText
    case Name => c.name
    case TagName => c.tagName
    case XPath => c.xpathExpression
    case ClassName => c.className
  }

  /** The position of a kind in the parameter list (and in the dispatch chain). */
  function Rank(k: LocatorKind): (position: nat)
  {
    match k
    case Id => 0
    case LinkText => 1
    case PartialLinkText => 2
    case Name => 3
    case TagName => 4
    case XPath => 5
    case ClassName => 6
  }

  /** The varargs array the find operations pass to `onlyOne`. */
  function Args(c: Criteria): (s: seq<Option<string>>)
    ensures |s| == 7
    ensures forall k :: s[Rank(k)] == Field(c, k)
  {
    [c.id, c.linkText, c.partialLinkText, c.name, c.tagName, c.xpathExpression, c.className]
  }

  // ---------------------------------------------------------------------------
  // onlyOne
  // ---------------------------------------------------------------------------

  /** 1 for a supplied argument, 0 for a null one. */
  function Indicator(o: Option<string>): (n: nat)
  {
    if o.Some? then 1 else 0
  }

  /** Number of non-null entries of `s` (only null-ness is looked at: an empty
      string is a supplied value). */
  function CountSome(s: seq<Option<string>>): (n: nat)
  {
    if s == [] then 0
    else CountSome(s[..|s| - 1]) + Indicator(s[|s| - 1])
  }

  /** `onlyOne`'s verdict, for use where a method cannot be called. */
  predicate ExactlyOne(s: seq<Option<string>>)
  {
    CountSome(s) == 1
  }

  /** `onlyOne`: counts the non-null arguments in a loop and answers whether the
      count is one. */
  method OnlyOne(args: seq<Option<string>>) returns (one: bool)
    ensures one == ExactlyOne(args)
    ensures one <==> exists i :: OnlySomeAt(args, i)
  {
    var count := 0;
    var n := 0;
    while n < |args|
      invariant 0 <= n <= |args|
      invariant count == CountSome(args[..n])
    {
      assert args[..n + 1][..n] == args[..n];
      if args[n].Some? {
        count := count + 1;
      }
      n := n + 1;
    }
    assert args[..n] == args;
    one := count == 1;
    ExactlyOneIffUnique(args);
  }

  /** Counting one more argument adds its indicator. */
  lemma CountAppend(s: seq<Option<string>>, x: Option<string>)
    ensures CountSome(s + [x]) == CountSome(s) + Indicator(x)
  {
  }

  /** The count is zero exactly when every entry is null. */
  lemma {:induction false} NoneCountedIffAllNull(s: seq<Option<string>>)
    ensures CountSome(s) == 0 <==> forall i :: 0 <= i < |s| ==> s[i].None?
  {
    if s != [] {
      var t := s[..|s| - 1];
      NoneCountedIffAllNull(t);
      assert forall i :: 0 <= i < |t| ==> t[i] == s[i];
    }
  }

  /** Entry `i` is the one non-null entry of `s`. */
  predicate OnlySomeAt(s: seq<Option<string>>, i: int)
  {
    0 <= i < |s| && s[i].Some? && forall j :: 0 <= j < |s| && j != i ==> s[j].None?
  }

  /** A count of one has a sole non-null entry. */
  lemma {:induction false} OneHasSoleEntry(s: seq<Option<string>>) returns (i: nat)
    requires ExactlyOne(s)
    ensures OnlySomeAt(s, i)
  {
    var t := s[..|s| - 1];
    assert forall j :: 0 <= j < |t| ==> t[j] == s[j];
    if s[|s| - 1].Some? {
      NoneCountedIffAllNull(t);
      i := |s| - 1;
    } else {
      i := OneHasSoleEntry(t);
    }
  }

  /** A sole non-null entry gives a count of one. */
  lemma {:induction false} SoleEntryCountsOne(s: seq<Option<string>>, i: int)
    requires OnlySomeAt(s, i)
    ensures ExactlyOne(s)
  {
    var t := s[..|s| - 1];
    assert forall j :: 0 <= j < |t| ==> t[j] == s[j];
    if i == |s| - 1 {
      NoneCountedIffAllNull(t);
    } else {
      SoleEntryCountsOne(t, i);
    }
  }

  /** The count is one exactly when a single entry is non-null. */
  lemma ExactlyOneIffUnique(s: seq<Option<string>>)
    ensures ExactlyOne(s) <==> exists i :: OnlySomeAt(s, i)
  {
    if ExactlyOne(s) {
      var i := OneHasSoleEntry(s);
    }
    if i :| OnlySomeAt(s, i) {
      SoleEntryCountsOne(s, i);
    }
  }

  /** Counting looks only at which entries are null. */
  lemma {:induction false} CountsAgree(s: seq<Option<string>>, t: seq<Option<string>>)
    requires |s| == |t|
    requires forall i :: 0 <= i < |s| ==> (s[i].None? <==> t[i].None?)
    ensures CountSome(s) == CountSome(t)
  {
    if s != [] {
      CountsAgree(s[..|s| - 1], t[..|t| - 1]);
    }
  }

  // ---------------------------------------------------------------------------
  // Validation and dispatch
  // ---------------------------------------------------------------------------

  /** Number of criteria the caller supplied. */
  function Supplied(c: Criteria): (n: nat)
  {
    CountSome(Args(c))
  }

  /** The guard of the first check: every criterion is null. */
  predicate AllAbsent(c: Criteria)
  {
    c.id.None? && c.linkText.None? && c.partialLinkText.None? &&
    c.name.None? && c.tagName.None? && c.xpathExpression.None? &&
    c.className.None?
  }

  /** The guard tests every criterion: it holds exactly when no locator kind
      has a value. */
  lemma AllAbsentMeansNoField(c: Criteria)
    ensures AllAbsent(c) <==> forall k :: Field(c, k).None?
  {
    if AllAbsent(c) {
      forall k ensures Field(c, k).None? {
        match k
        case Id =>
        case LinkText =>
        case PartialLinkText =>
        case Name =>
        case TagName =>
        case XPath =>
        case ClassName =>
      }
    } else {
      assert Field(c, Id).Some? || Field(c, LinkText).Some? || Field(c, PartialLinkText).Some? ||
             Field(c, Name).Some? || Field(c, TagName).Some? || Field(c, XPath).Some? ||
             Field(c, ClassName).Some?;
    }
  }

  /** The if/else-if chain: the first non-null criterion, in parameter order,
      becomes the locator; `None` is the trailing `return null`. */
  function Select(c: Criteria): (r: Option<Locator>)
    ensures r.None? <==> AllAbsent(c)
    ensures r.Some? ==> Field(c, r.value.kind) == Some(r.value.value)
    ensures r.Some? ==> forall k :: Rank(k) < Rank(r.value.kind) ==> Field(c, k).None?
  {
    if c.id.Some? then Some(Locator(Id, c.id.value))
    else if c.linkText.Some? then Some(Locator(LinkText, c.linkText.value))
    else if c.partialLinkText.Some? then Some(Locator(PartialLinkText, c.partialLinkText.value))
    else if c.name.Some? then Some(Locator(Name, c.name.value))
    else if c.tagName.Some? then Some(Locator(TagName, c.tagName.value))
    else if c.xpathExpression.Some? then Some(Locator(XPath, c.xpathExpression.value))
    else if c.className.Some? then Some(Locator(ClassName, c.className.value))
    else None
  }

  /** The count `onlyOne` computes over the seven parameters, spelled out. */
  lemma {:induction false} SuppliedSum(c: Criteria)
    ensures Supplied(c) == Indicator(c.id) + Indicator(c.linkText) + Indicator(c.partialLinkText)
                           + Indicator(c.name) + Indicator(c.tagName)
                           + Indicator(c.xpathExpression) + Indicator(c.className)
  {
    var p1 := [c.id];
    var p2 := p1 + [c.linkText];
    var p3 := p2 + [c.partialLinkText];
    var p4 := p3 + [c.name];
    var p5 := p4 + [c.tagName];
    var p6 := p5 + [c.xpathExpression];
    assert Args(c) == p6 + [c.className];
    CountAppend([], c.id);
    assert [] + [c.id] == p1;
    CountAppend(p1, c.linkText);
    CountAppend(p2, c.partialLinkText);
    CountAppend(p3, c.name);
    CountAppend(p4, c.tagName);
    CountAppend(p5, c.xpathExpression);
    CountAppend(p6, c.className);
  }

  /** The first check fires exactly when no criterion is supplied, and the
      second exactly when several are. */
  lemma ChecksMatchCount(c: Criteria)
    ensures AllAbsent(c) <==> Supplied(c) == 0
    ensures !AllAbsent(c) && !ExactlyOne(Args(c)) <==> Supplied(c) >= 2
  {
    SuppliedSum(c);
  }

  /** A supplied single criterion is the only one that is non-null. */
  lemma SingleCriterion(c: Criteria, k: LocatorKind)
    requires Supplied(c) == 1 && Field(c, k).Some?
    ensures forall k' :: k' != k ==> Field(c, k').None?
  {
    var s := Args(c);
    ExactlyOneIffUnique(s);
    var i :| OnlySomeAt(s, i);
    assert i == Rank(k);
    forall k' | k' != k ensures Field(c, k').None? {
      assert s[Rank(k')] == Field(c, k');
    }
  }

  /** `findElements`: rejects no criterion, then several criteria, and otherwise
      asks the driver for all elements matching the one supplied criterion. */
  function FindElements(c: Criteria): (r: Result<Lookup, Error>)
    ensures r == Failure(IllegalArgument(NoCriteriaMessage)) <==> Supplied(c) == 0
    ensures r == Failure(IllegalArgument(SeveralCriteriaMessage)) <==> Supplied(c) >= 2
    ensures r.Success? <==> Supplied(c) == 1
    ensures r.Success? ==> r.value.FindAll? && Field(c, r.value.locator.kind) == Some(r.value.locator.value)
  {
    ChecksMatchCount(c);
    if AllAbsent(c) then
      Failure(IllegalArgument(NoCriteriaMessage))
    else if !ExactlyOne(Args(c)) then
      Failure(IllegalArgument(SeveralCriteriaMessage))
    else
      match Select(c)
      case Some(loc) => Success(FindAll(loc))
      case None => assert false; Failure(IllegalArgument(NoCriteriaMessage))
  }

  /** `findElement`: the same checks in the same order, then asks the driver for
      the first element matching the one supplied criterion. */
  function FindElement(c: Criteria): (r: Result<Lookup, Error>)
    ensures r == Failure(IllegalArgument(NoCriteriaMessage)) <==> Supplied(c) == 0
    ensures r == Failure(IllegalArgument(SeveralCriteriaMessage)) <==> Supplied(c) >= 2
    ensures r.Success? <==> Supplied(c) == 1
    ensures r.Success? ==> r.value.FindFirst? && Field(c, r.value.locator.kind) == Some(r.value.locator.value)
  {
    ChecksMatchCount(c);
    if AllAbsent(c) then
      Failure(IllegalArgument(NoCriteriaMessage))
    else if !ExactlyOne(Args(c)) then
      Failure(IllegalArgument(SeveralCriteriaMessage))
    else
      match Select(c)
      case Some(loc) => Success(FindFirst(loc))
      case None => assert false; Failure(IllegalArgument(NoCriteriaMessage))
  }

  /** With exactly one criterion supplied, the lookup uses that criterion's own
      locator kind and its value unchanged; with none or several, no lookup is
      made. */
  lemma FindElementsDispatch(c: Criteria, k: LocatorKind)
    requires Field(c, k).Some?
    ensures FindElements(c) == (if Supplied(c) == 1
                                then Success(FindAll(Locator(k, Field(c, k).value)))
                                else Failure(IllegalArgument(SeveralCriteriaMessage)))
  {
    if Supplied(c) == 1 {
      SingleCriterion(c, k);
    } else {
      ChecksMatchCount(c);
    }
  }

  /** `findElements` and `findElement` reject the same inputs with the same
      message and otherwise look up the same locator. */
  lemma FindOperationsAgree(c: Criteria)
    ensures FindElements(c).Failure? <==> FindElement(c).Failure?
    ensures FindElements(c).Failure? ==> FindElements(c).error == FindElement(c).error
    ensures FindElements(c).Success? ==> FindElements(c).value.locator == FindElement(c).value.locator
  {
  }

  /** Only null-ness is validated: two calls whose criteria are null in the same
      places get the same verdict, and an empty string counts as supplied. */
  lemma OnlyNullnessMatters(c: Criteria, d: Criteria)
    requires forall k :: Field(c, k).None? <==> Field(d, k).None?
    ensures FindElements(c).Failure? <==> FindElements(d).Failure?
    ensures FindElements(c).Failure? ==> FindElements(c) == FindElements(d)
    ensures FindElements(c).Success? ==> FindElements(c).value.locator.kind == FindElements(d).value.locator.kind
  {
    assert Field(c, Id).None? <==> Field(d, Id).None?;
    assert Field(c, LinkText).None? <==> Field(d, LinkText).None?;
    assert Field(c, PartialLinkText).None? <==> Field(d, PartialLinkText).None?;
    assert Field(c, Name).None? <==> Field(d, Name).None?;
    assert Field(c, TagName).None? <==> Field(d, TagName).None?;
    assert Field(c, XPath).None? <==> Field(d, XPath).None?;
    assert Field(c, ClassName).None? <==> Field(d, ClassName).None?;
    SuppliedSum(c);
    SuppliedSum(d);
    var r1, r2 := FindElements(c), FindElements(d);
    if r1.Success? {
      SingleCriterion(d, r2.value.locator.kind);
    }
  }

  /** An empty string is a supplied criterion: it alone selects its locator, and
      next to another criterion it makes the call fail. */
  lemma EmptyStringIsSupplied()
    ensures FindElements(Criteria(Some(""), None, None, None, None, None, None))
            == Success(FindAll(Locator(Id, "")))
    ensures FindElement(Criteria(None, None, None, None, None, Some("//a"), Some("")))
            == Failure(IllegalArgument(SeveralCriteriaMessage))
  {
    var c := Criteria(Some(""), None, None, None, None, None, None);
    SuppliedSum(c);
    FindElementsDispatch(c, Id);
    var d := Criteria(None, None, None, None, None, Some("//a"), Some(""));
    SuppliedSum(d);
    FindElementsDispatch(d, XPath);
    FindOperationsAgree(d);
  }

  // ---------------------------------------------------------------------------
  // until: the result of one evaluation of the condition
  // ---------------------------------------------------------------------------

  /** Default of `until`'s `timeOutInSeconds` (the `@Default("10")` parameter).
      The browser wait that uses it polls on wall-clock time and is not part of
      this model; only one evaluation of its condition is. */
  const DefaultTimeoutSeconds: nat := 10

  /** What a Java call may throw, as far as `catch (Exception e)` is concerned:
      an `Exception` (checked or unchecked) is caught; an `Error` stands for any
      other `Throwable`, which the catch lets through. */
  datatype Throwable = Exception | Error

  /** One evaluation of the condition: the nested processor's `process()` throws
      or returns null or an object; for an object, its `toString()` throws or
      returns a string (`None` is a null string). */
  datatype Evaluation =
    | ProcessThrew(cause: Throwable)
    | ReturnedNull
    | ToStringThrew(cause: Throwable)
    | ReturnedText(text: Option<string>)

  /** `Character.toUpperCase`, restricted to ASCII letters. */
  function UpperCase(ch: char): char
  {
    if 'a' <= ch <= 'z' then (ch as int - 'a' as int + 'A' as int) as char else ch
  }

  /** `Character.toLowerCase`, restricted to ASCII letters. */
  function LowerCase(ch: char): char
  {
    if 'A' <= ch <= 'Z' then (ch as int - 'A' as int + 'a' as int) as char else ch
  }

  /** `String.equalsIgnoreCase` on two non-null strings: same length, and each
      pair of characters is equal, equal in upper case, or equal in lower case
      after upper-casing. */
  predicate EqualsIgnoreCase(a: string, b: string)
  {
    |a| == |b| &&
    forall i :: 0 <= i < |a| ==>
      a[i] == b[i] || UpperCase(a[i]) == UpperCase(b[i]) ||
      LowerCase(UpperCase(a[i])) == LowerCase(UpperCase(b[i]))
  }

  /** A spelling of "true": four characters, each the lower- or upper-case
      letter at that place. */
  predicate SpellsTrue(s: string)
  {
    |s| == 4 &&
    (s[0] == 't' || s[0] == 'T') && (s[1] == 'r' || s[1] == 'R') &&
    (s[2] == 'u' || s[2] == 'U') && (s[3] == 'e' || s[3] == 'E')
  }

  /** `Boolean.valueOf(String)`: true exactly for a non-null string that equals
      "true" ignoring case; null and every other string give false. */
  function ParseBoolean(s: Option<string>): (b: bool)
    ensures b <==> s.Some? && SpellsTrue(s.value)
  {
    s.Some? && EqualsIgnoreCase(s.value, "true")
  }

  /** The condition handed to the browser wait: the payload's `toString()` parsed
      with `Boolean.valueOf`. An `Exception` from `process()` or `toString()`
      (including the one `toString()` throws on a null payload) is logged and
      yields true, so the wait ends; any other `Throwable` leaves the condition
      and the wait (`Failure`). */
  function ConditionResult(e: Evaluation): (r: Result<bool, Throwable>)
    ensures r == Success(true) <==>
              e == ProcessThrew(Exception) || e == ReturnedNull || e == ToStringThrew(Exception) ||
              (e.ReturnedText? && e.text.Some? && SpellsTrue(e.text.value))
    ensures r == Success(false) <==> e.ReturnedText? && (e.text.None? || !SpellsTrue(e.text.value))
    ensures r.Failure? <==> e == ProcessThrew(Error) || e == ToStringThrew(Error)
    ensures r.Failure? ==> r.error == Error
  {
    match e
    case ProcessThrew(Exception) => Success(true)
    case ProcessThrew(Error) => Failure(Error)
    case ReturnedNull => Success(true)  // null.toString() throws NullPointerException
    case ToStringThrew(Exception) => Success(true)
    case ToStringThrew(Error) => Failure(Error)
    case ReturnedText(text) => Success(ParseBoolean(text))
  }

  /** The wait is kept going only by a string other than "true": an exception
      never means "not yet". */
  lemma OnlyTextKeepsWaiting(e: Evaluation)
    requires ConditionResult(e) == Success(false)
    ensures e.ReturnedText? && (e.text.None? || !SpellsTrue(e.text.value))
  {
  }

  /** Examples: "true" in any case ends the wait, other text (and a null
      `toString()`) does not, an exception ends it too, and an `Error` escapes. */
  lemma ConditionResultExamples()
    ensures ConditionResult(ReturnedText(Some("true"))) == Success(true)
    ensures ConditionResult(ReturnedText(Some("TRUE"))) == Success(true)
    ensures ConditionResult(ReturnedText(Some("tRuE"))) == Success(true)
    ensures ConditionResult(ReturnedText(Some("false"))) == Success(false)
    ensures ConditionResult(ReturnedText(Some(""))) == Success(false)
    ensures ConditionResult(ReturnedText(Some(" true"))) == Success(false)
    ensures ConditionResult(ReturnedText(Some("yes"))) == Success(false)
    ensures ConditionResult(ReturnedText(None)) == Success(false)
    ensures ConditionResult(ProcessThrew(Exception)) == Success(true)
    ensures ConditionResult(ProcessThrew(Error)) == Failure(Error)
  {
  }
}
