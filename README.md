# Selenium connector: criteria validation, locator dispatch and wait condition

This project models, in Dafny, the parts of the Mule Selenium connector
(`SeleniumModule`) that do their own work rather than delegate to Selenium
WebDriver. There are three such parts:

- **`onlyOne`.** It counts how many of its arguments are non-null and answers whether exactly one is.
- **`findElements` and `findElement`.** Each takes seven optional criteria: `id`, `linkText`,
  `partialLinkText`, `name`, `tagName`, `xpathExpression` and `className`.
  - When all seven are null, the call throws `IllegalArgumentException("At least one find criteria must be specified.")`.
  - When more than one is non-null, it throws `IllegalArgumentException("Only one attribute can be used")`.
  - Otherwise it hands the driver the locator (`By.id`, `By.linkText`, ..., `By.xpath`, `By.className`) of the single supplied criterion, with its value unchanged.
- **The condition of `until`.** Each evaluation of the nested processor becomes a boolean.
  - The processor's payload is turned into a string with `toString()` and then read with `Boolean.valueOf`, so it is true exactly for "true" in any letter case.
  - An `Exception` thrown by `process()` or by `toString()` is logged and yields `true`, which ends the wait. This includes the `NullPointerException` from calling `toString()` on a null payload.
  - Any other `Throwable` (an `Error`) is not caught. It leaves the condition and the wait.
  - A `toString()` that returns null gives `Boolean.valueOf(null)`, which is false.

The browser driver is an opaque sink. A successful find is modelled as the request the connector would
issue: `FindAll(locator)` for `findElements` and `FindFirst(locator)` for `findElement`. Java `null` is
`None`, and a thrown exception is a `Failure`.

Helpers without rows of their own:
- `AllAbsent` is the all-null guard of lines 139-141 and 196-198. Its meaning is stated by `AllAbsentMeansNoField`.
- `EqualsIgnoreCase` (`String.equalsIgnoreCase`) is used by `ParseBoolean`. Its meaning on the target "true" is stated by `ParseBoolean`'s contract.

Files:
- `wrappers.dfy`: module `Wrappers` with `Option` and `Result`.
- `selenium_module.dfy`: module `SeleniumModule`.

An exception thrown while the `until` condition is evaluated does not mean "not yet, keep
waiting". The catch block (`SeleniumModule.java:427-430`) returns `true`, so the wait finishes
at once. The model follows the code: `ConditionResult(ProcessThrew(Exception)) == Success(true)`.

## Model

| member | source | states |
|---|---|---|
| `SeleniumModule.Args` | src/main/java/org/mule/modules/selenium/SeleniumModule.java:145 | The varargs array passed to `onlyOne` has seven entries, and the entry at each criterion's position is that criterion. |
| `SeleniumModule.OnlyOne` | src/main/java/org/mule/modules/selenium/SeleniumModule.java:436-444 | The counting loop returns true exactly when exactly one argument is non-null. Its loop invariant ties the counter to `CountSome` of the prefix already scanned. Equivalently, there is an index holding a value and every other index is null. |
| `SeleniumModule.NoneCountedIffAllNull` | src/main/java/org/mule/modules/selenium/SeleniumModule.java:436-444 | The count of non-null arguments is zero exactly when every argument is null. |
| `SeleniumModule.ExactlyOneIffUnique` | src/main/java/org/mule/modules/selenium/SeleniumModule.java:436-444 | Both directions: the count is one exactly when a single argument is non-null and all others are null. |
| `SeleniumModule.OneHasSoleEntry` | src/main/java/org/mule/modules/selenium/SeleniumModule.java:436-444 | When the count of non-null arguments is one, it produces the index of the argument that is non-null, and every other argument is null. |
| `SeleniumModule.SoleEntryCountsOne` | src/main/java/org/mule/modules/selenium/SeleniumModule.java:436-444 | When one argument is non-null and all others are null, the count is one. |
| `SeleniumModule.CountsAgree` | src/main/java/org/mule/modules/selenium/SeleniumModule.java:438-442 | Only null-ness is counted: two argument arrays that are null at the same places get the same count, whatever the strings (including ""). |
| `SeleniumModule.SuppliedSum` | src/main/java/org/mule/modules/selenium/SeleniumModule.java:145 | The count `onlyOne` computes over the seven criteria is the sum, over the criteria, of 1 for each non-null one. |
| `SeleniumModule.Select` | src/main/java/org/mule/modules/selenium/SeleniumModule.java:149-165 | The if/else-if chain reaches its trailing `return null` exactly when all seven criteria are null. Otherwise it picks a non-null criterion, and every criterion earlier in parameter order is null. The locator's kind is that criterion's and its value is the criterion's string unchanged. |
| `SeleniumModule.ChecksMatchCount` | src/main/java/org/mule/modules/selenium/SeleniumModule.java:139-147 | The all-null guard holds exactly when no criterion is supplied. Reaching the `onlyOne` rejection happens exactly when two or more are supplied. |
| `SeleniumModule.SingleCriterion` | src/main/java/org/mule/modules/selenium/SeleniumModule.java:145-147 | Once the `onlyOne` check passes, the supplied criterion is the only non-null one. |
| `SeleniumModule.FindElements` | src/main/java/org/mule/modules/selenium/SeleniumModule.java:131-166 | No supplied criterion gives the "At least one find criteria must be specified." error, and only that input gives it. Two or more give "Only one attribute can be used", and only those give it. Exactly one gives a lookup. In that case it is a find-all request whose locator kind's criterion holds the locator's value. |
| `SeleniumModule.FindElement` | src/main/java/org/mule/modules/selenium/SeleniumModule.java:188-223 | The same error cases, with the same messages and in the same order as `FindElements`. Exactly one supplied criterion gives a find-first request on that criterion's locator. |
| `SeleniumModule.FindElementsDispatch` | src/main/java/org/mule/modules/selenium/SeleniumModule.java:149-162 | For a supplied criterion of kind k: if it is the only one, the lookup is `By.k` with its value unchanged. Otherwise the call fails with "Only one attribute can be used". The trailing `return null` is never reached. |
| `SeleniumModule.FindOperationsAgree` | src/main/java/org/mule/modules/selenium/SeleniumModule.java:139-162 | `findElements` (139-162) and `findElement` (196-219) reject exactly the same inputs with the same exception. Otherwise they use the same locator. |
| `SeleniumModule.OnlyNullnessMatters` | src/main/java/org/mule/modules/selenium/SeleniumModule.java:139-147 | Criteria that are null at the same places get the same verdict: the same exception, or a lookup of the same locator kind. |
| `SeleniumModule.EmptyStringIsSupplied` | src/main/java/org/mule/modules/selenium/SeleniumModule.java:139-141 | An empty `id` on its own selects `By.id("")`. An empty `className` together with an `xpathExpression` is rejected as more than one attribute. |
| `SeleniumModule.ParseBoolean` | src/main/java/org/mule/modules/selenium/SeleniumModule.java:427 | `Boolean.valueOf(String)` is true exactly for a non-null string that is a four-letter spelling of "true" in any mix of cases. Null and every other string, including "" and "false", give false. |
| `SeleniumModule.ConditionResult` | src/main/java/org/mule/modules/selenium/SeleniumModule.java:425-431 | In each direction: the condition is true exactly when `process()` or `toString()` threw an `Exception`, when the payload is null, or when its `toString()` spells "true". It is false exactly when `toString()` returned null or another string. An `Error` from either call escapes, and only an `Error` does. |
| `SeleniumModule.OnlyTextKeepsWaiting` | src/main/java/org/mule/modules/selenium/SeleniumModule.java:426-431 | An evaluation that keeps the wait going returned a string (or a null string) other than "true". No exception ever means "keep waiting". |
| `SeleniumModule.ConditionResultExamples` | src/main/java/org/mule/modules/selenium/SeleniumModule.java:427-430 | "true", "TRUE" and "tRuE" end the wait. "false", "", " true", "yes" and a null `toString()` do not. A thrown `Exception` ends it, and an `Error` escapes. |
| `SeleniumModule.AllAbsentMeansNoField` | src/main/java/org/mule/modules/selenium/SeleniumModule.java:139-141 | The all-null guard holds exactly when none of the seven locator kinds has a value. |

## Left out

- The `WebDriverWait` polling loop (`until`, line 424) is not modelled. It is library code driven by wall-clock time. Only the per-evaluation result is modelled. The default timeout of 10 seconds (line 422) appears only as the constant `DefaultTimeoutSeconds`.
- The driver's `findElements` / `findElement` calls are not modelled. They are foreign calls into a browser session, and a lookup is represented only by the request handed to them.
- The one-line delegations to WebDriver and WebElement are not modelled (`get`, `getCurrentUrl`, `getTitle`, `click`, `submit`, `sendKeys`, `clear`, `getTagName`, `getAttribute`, `isSelected`, `isEnabled`, `getText`, `isDisplayed`, `getLocation`, `getSize`). They compute nothing of their own.
- Driver lifecycle (`initDriver`, `destroyDriver`) is not modelled. It uses reflective instantiation and resource teardown.
- The `SeleniumWebDriver` enum and the configured default `HTMLUNIT` are not modelled. The enum is a constant table of third-party driver classes.
- Logging of the exception in `until` (line 429) is not modelled.
- SeleniumModule.ParseBoolean: the payload object and its `toString()` are not modelled beyond the outcomes `Evaluation` lists, and a `toString()` result is an arbitrary string supplied as input. `String.equalsIgnoreCase` is modelled with ASCII-only case mapping. For the target "true" this should give the same result as Java's per-character Unicode mapping, assuming no non-ASCII character folds to one of the letters t, r, u or e.
