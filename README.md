# SkwiProjectBaseBundle `BaseManager`, modelled in Dafny

`BaseManager` is the abstract base class of the bundle's entity managers. Concrete managers inherit it to get:

- configuration by dependency injection: the entity manager, bundle name and namespace, and the default page size;
- `setEntity`, which decodes a bundle-qualified entity reference such as `SkwiBlogBundle:Post` into the managed entity name and its repository;
- a persistence façade over Doctrine's entity manager (`save`, `persist`, `flush`, `delete`, `remove`);
- `find` and `findAllPaginated` lookups;
- the class name `createNew` instantiates;
- two state helpers, `toggleState` and `switchState`;
- a `slug` string normaliser.

The model has seven modules:

- `Wrappers`: `Option` and `Result`.
- `Ascii`: byte classes, lower-casing, caseless equality.
- `PhpValues`: the dynamically typed values a record's state and an identifier can take, PHP truthiness, and the two state transitions.
- `Slugs`: `slug` as a chain of four string functions, with lemmas on its output alphabet, hyphen runs, idempotence and worked examples.
- `EntityNames`: the pattern `#^<bundleName>:([a-z]+)$#i` as a small caseless parser, proved equal to a declarative description of the references it accepts.
- `Persistence`: records, `is_a`, and an abstract entity manager.
  - A record is a class with a mutable `state`, a `hasGetState` capability flag and its class-and-ancestor names.
  - The entity manager keeps the log of `persist`/`remove`/`flush` calls and a fixed table of what each repository's `find` returns.
- `Managers`: the class `BaseManager`. Its fields are the PHP properties. Its methods update them, append to the entity manager's log or change a record's state, and each states exactly what it changes.

`checkInstance` calls `is_a`, which compares whole class names (the object's class or an ancestor, caselessly), not prefixes. With the class string as written, `checkInstance` therefore accepts nothing at all (see Findings).

## Model

| member | source | states |
|---|---|---|
| Ascii.LowerChar | src/Skwi/Bundle/ProjectBaseBundle/Manager/BaseManager.php:348 | bytewise `strtolower`: an upper-case ASCII letter becomes its lower-case letter (code + 32), every other byte is unchanged, and no upper-case letter remains |
| Slugs.Slug | src/Skwi/Bundle/ProjectBaseBundle/Manager/BaseManager.php:346-353 | every slug byte is in `[a-z0-9-]` and no slug contains `--` |
| Slugs.TrimSpec | src/Skwi/Bundle/ProjectBaseBundle/Manager/BaseManager.php:348 | `trim` returns the infix between the leading and trailing runs of space, tab, newline, carriage return, NUL and vertical tab; the infix neither starts nor ends with one of them |
| Slugs.TrimStartSpec | src/Skwi/Bundle/ProjectBaseBundle/Manager/BaseManager.php:348 | the left half of `trim`: a suffix of the input, preceded only by trimmed bytes and starting with an untrimmed one |
| Slugs.TrimEndSpec | src/Skwi/Bundle/ProjectBaseBundle/Manager/BaseManager.php:348 | the right half of `trim`: a prefix of the input, followed only by trimmed bytes and ending with an untrimmed one |
| Slugs.TrimKeepsUntrimmed | src/Skwi/Bundle/ProjectBaseBundle/Manager/BaseManager.php:348 | a string without trimmable bytes is unchanged by `trim` |
| Slugs.CollapseSpec | src/Skwi/Bundle/ProjectBaseBundle/Manager/BaseManager.php:350 | `preg_replace('/-+/', '-')` never lengthens, keeps the first and last byte, keeps the slug alphabet, and leaves no `--` |
| Slugs.CollapseKeepsSqueezed | src/Skwi/Bundle/ProjectBaseBundle/Manager/BaseManager.php:350 | a string without `--` is left as it is |
| Slugs.CollapseFixedPoints | src/Skwi/Bundle/ProjectBaseBundle/Manager/BaseManager.php:350 | squeezing leaves a string unchanged if and only if it contains no `--` |
| Slugs.CollapseKeepsOtherChars | src/Skwi/Bundle/ProjectBaseBundle/Manager/BaseManager.php:350 | squeezing drops only hyphens: all other bytes survive in order |
| Slugs.ReplaceKeepsLettersAndDigits | src/Skwi/Bundle/ProjectBaseBundle/Manager/BaseManager.php:349 | after `preg_replace('/[^a-z0-9-]/', '-')`, the non-hyphen bytes are exactly the input's lower-case letters and digits, in order |
| Slugs.SlugKeepsLettersAndDigits | src/Skwi/Bundle/ProjectBaseBundle/Manager/BaseManager.php:346-353 | the slug keeps every lower-case letter and digit of the trimmed, lower-cased input, in order, and adds only hyphens |
| Slugs.SlugIdempotent | src/Skwi/Bundle/ProjectBaseBundle/Manager/BaseManager.php:346-353 | `slug(slug(s)) == slug(s)` |
| Slugs.SlugEdges | src/Skwi/Bundle/ProjectBaseBundle/Manager/BaseManager.php:346-353 | leading and trailing hyphens are not stripped: the slug starts (ends) with `-` exactly when the trimmed input starts (ends) with a byte outside `[a-z0-9]` after lower-casing |
| Slugs.NoDoubleHyphenAt | src/Skwi/Bundle/ProjectBaseBundle/Manager/BaseManager.php:350 | the recursive "no `--`" property means no position holds two adjacent hyphens |
| Slugs.NoDoubleHyphenFromPositions | src/Skwi/Bundle/ProjectBaseBundle/Manager/BaseManager.php:350 | the converse: no two adjacent hyphens anywhere gives the recursive property |
| Slugs.TrimStart | src/Skwi/Bundle/ProjectBaseBundle/Manager/BaseManager.php:348 | computes the left half of `trim`, dropping leading space, tab, newline, carriage return, NUL and vertical tab; characterised by `TrimStartSpec` |
| Slugs.TrimEnd | src/Skwi/Bundle/ProjectBaseBundle/Manager/BaseManager.php:348 | computes the right half of `trim`, dropping the same bytes at the end; characterised by `TrimEndSpec` |
| Slugs.Trim | src/Skwi/Bundle/ProjectBaseBundle/Manager/BaseManager.php:348 | `trim($str)` as the two halves in turn; characterised by `TrimSpec` |
| Slugs.ToLower | src/Skwi/Bundle/ProjectBaseBundle/Manager/BaseManager.php:348 | bytewise `strtolower`, applying `LowerChar` to every byte |
| Slugs.ReplaceOthers | src/Skwi/Bundle/ProjectBaseBundle/Manager/BaseManager.php:349 | `preg_replace('/[^a-z0-9-]/', '-')`: each byte outside the slug alphabet becomes one `-`; characterised by `ReplaceKeepsLettersAndDigits` and `ReplaceOthersConcat` |
| Slugs.CollapseHyphens | src/Skwi/Bundle/ProjectBaseBundle/Manager/BaseManager.php:350 | `preg_replace('/-+/', '-')`; characterised by `CollapseSpec`, `CollapseFixedPoints`, `CollapseKeepsOtherChars` and `CollapseRun` |
| Slugs.CollapseConcat | src/Skwi/Bundle/ProjectBaseBundle/Manager/BaseManager.php:350 | the squeeze works piecewise: across a seam that is not `--`, squeezing the concatenation is concatenating the squeezed parts |
| Slugs.CollapseAllHyphens | src/Skwi/Bundle/ProjectBaseBundle/Manager/BaseManager.php:350 | a run of one or more `-` squeezes to exactly one `-` |
| Slugs.CollapseRun | src/Skwi/Bundle/ProjectBaseBundle/Manager/BaseManager.php:350 | a run of one or more `-` between two bytes other than `-` squeezes to exactly one `-`, and each side is squeezed on its own |
| Slugs.ReplaceOthersConcat | src/Skwi/Bundle/ProjectBaseBundle/Manager/BaseManager.php:349 | the class replacement works byte by byte: it distributes over concatenation |
| Slugs.SlugSeparatesWords | src/Skwi/Bundle/ProjectBaseBundle/Manager/BaseManager.php:346-353 | two words of the trimmed, lower-cased input (ending and starting with a letter or digit) separated by one or more bytes outside `[a-z0-9]` are joined by exactly one `-` in the slug |
| Slugs.SlugExampleHelloWorld | src/Skwi/Bundle/ProjectBaseBundle/Manager/BaseManager.php:346-353 | `"  Hello_World!! 2024 "` slugs to `"hello-world-2024"` |
| Slugs.SlugExampleHyphenRun | src/Skwi/Bundle/ProjectBaseBundle/Manager/BaseManager.php:350 | `"a---b"` slugs to `"a-b"` |
| Slugs.SlugExampleTrailingHyphen | src/Skwi/Bundle/ProjectBaseBundle/Manager/BaseManager.php:346-353 | `"Hi!"` slugs to `"hi-"` |
| EntityNames.MatchLiteralSpec | src/Skwi/Bundle/ProjectBaseBundle/Manager/BaseManager.php:121-122 | the literal part of the caseless pattern matches exactly when the input starts with the literal up to ASCII case, and leaves the rest of the input |
| EntityNames.MatchLettersToEndSpec | src/Skwi/Bundle/ProjectBaseBundle/Manager/BaseManager.php:121-122 | `([a-z]+)$` under the `i` flag accepts exactly the non-empty runs of ASCII letters |
| EntityNames.MatchLiteral | src/Skwi/Bundle/ProjectBaseBundle/Manager/BaseManager.php:121-122 | the literal `<bundleName>:` at the start of the pattern, matched caselessly under the `i` flag: the rest of the input, or no match; characterised by `MatchLiteralSpec` |
| EntityNames.MatchLettersToEnd | src/Skwi/Bundle/ProjectBaseBundle/Manager/BaseManager.php:121-122 | `([a-z]+)$` under the `i` flag: the rest is a non-empty run of ASCII letters; characterised by `MatchLettersToEndSpec` |
| EntityNames.MatchReference | src/Skwi/Bundle/ProjectBaseBundle/Manager/BaseManager.php:121-122 | `preg_match` of `#^<bundleName>:([a-z]+)$#i` with its capture group, as a caseless literal match followed by a letter run to the end; characterised by `MatchReferenceSpec` |
| EntityNames.MatchReferenceSpec | src/Skwi/Bundle/ProjectBaseBundle/Manager/BaseManager.php:121-124 | `preg_match` succeeds if and only if the reference is the bundle name (caselessly), `:`, then one or more letters; the capture is the letters after the colon, as written |
| EntityNames.MatchReferenceOfName | src/Skwi/Bundle/ProjectBaseBundle/Manager/BaseManager.php:121-124 | for any case variant of the bundle name followed by `:` and a letter run, the capture is that letter run with its case preserved |
| EntityNames.NonLetterRejected | src/Skwi/Bundle/ProjectBaseBundle/Manager/BaseManager.php:121-122 | a reference with a non-letter after the colon (a digit, `_`) does not match |
| EntityNames.OtherBundleRejected | src/Skwi/Bundle/ProjectBaseBundle/Manager/BaseManager.php:121-122 | a reference whose bundle part differs from the bundle name beyond case does not match |
| EntityNames.MatchReferenceCaselessExample | src/Skwi/Bundle/ProjectBaseBundle/Manager/BaseManager.php:121-124 | `"skwibundle:BlogPost"` matches bundle `SkwiBundle` and captures `"BlogPost"` |
| EntityNames.MatchReferenceRejectExamples | src/Skwi/Bundle/ProjectBaseBundle/Manager/BaseManager.php:121-122 | `Post2`, `Blog_Post` and a different bundle are rejected |
| PhpValues.Truthy | src/Skwi/Bundle/ProjectBaseBundle/Manager/BaseManager.php:272 | PHP's conversion to bool used by `!` here and by the tests at lines 111, 123, 126 and 217: null, false, 0, `""` and `"0"` are false, every other value is true |
| PhpValues.Toggled | src/Skwi/Bundle/ProjectBaseBundle/Manager/BaseManager.php:272 | `!state` is a boolean whose truth value is the opposite of the old state's |
| PhpValues.Switched | src/Skwi/Bundle/ProjectBaseBundle/Manager/BaseManager.php:337 | the new state is 0 or 1, and 0 exactly when the old state is identical (`===`) to the integer 1 |
| PhpValues.ToggleTwice | src/Skwi/Bundle/ProjectBaseBundle/Manager/BaseManager.php:272 | toggling twice yields the old state's truth value as a boolean |
| PhpValues.ToggleTwiceRestoresBool | src/Skwi/Bundle/ProjectBaseBundle/Manager/BaseManager.php:272 | toggling a boolean state twice restores it |
| PhpValues.SwitchTwice | src/Skwi/Bundle/ProjectBaseBundle/Manager/BaseManager.php:337 | switching twice restores a state of 0 or 1 and sends every other state to 0 |
| PhpValues.SwitchIsStrict | src/Skwi/Bundle/ProjectBaseBundle/Manager/BaseManager.php:337 | `true` and `"1"` are not `=== 1`, so they switch to 1; the integer 1 switches to 0 |
| Persistence.ClassLookupName | src/Skwi/Bundle/ProjectBaseBundle/Manager/BaseManager.php:321 | the name a class string is looked up by: one leading `\` of a fully qualified name is dropped |
| Persistence.IsA | src/Skwi/Bundle/ProjectBaseBundle/Manager/BaseManager.php:321 | `is_a($entity, $class)` on an object: some name in the record's class-and-ancestor chain equals the class name up to ASCII case, after one leading `\` is dropped from the class name as PHP's class lookup does |
| Persistence.ClassLookupNameAppend | src/Skwi/Bundle/ProjectBaseBundle/Manager/BaseManager.php:321 | the dropped `\` can only be the first byte: appending to a non-empty prefix commutes with the lookup name |
| Persistence.IsAFullyQualified | src/Skwi/Bundle/ProjectBaseBundle/Manager/BaseManager.php:321 | `is_a($e, '\A\B')` and `is_a($e, 'A\B')` agree for every record |
| Persistence.IsANeverTrailingSeparator | src/Skwi/Bundle/ProjectBaseBundle/Manager/BaseManager.php:320-321 | `is_a` against a name ending in `\` is false for any record whose class names are legal |
| Managers.Given | src/Skwi/Bundle/ProjectBaseBundle/Manager/BaseManager.php:123-126 | PHP's truth test on an optional string argument, as at lines 111, 123, 126 and 217: null, `""` and `"0"` are false |
| Managers.LcFirst | src/Skwi/Bundle/ProjectBaseBundle/Manager/BaseManager.php:179 | `lcfirst`: the first byte lower-cased, the rest unchanged |
| Managers.RepositoryAttribute | src/Skwi/Bundle/ProjectBaseBundle/Manager/BaseManager.php:179 | the property `find` reads: `lcfirst(name) . 'Repository'` for a non-null name, `'repository'` for null; characterised by `NamedAttributeIsNotDefault` and `RepositoryAttributeSame` |
| Managers.EntityClass | src/Skwi/Bundle/ProjectBaseBundle/Manager/BaseManager.php:217 | `sprintf('%s\\Entity\\%s', ...)`: the namespace, `\Entity\`, then the name; characterised by `EntityClassInjective` |
| Managers.NamedAttributeIsNotDefault | src/Skwi/Bundle/ProjectBaseBundle/Manager/BaseManager.php:179 | a non-null entity name never selects the default `repository` property, not even the empty name |
| Managers.RepositoryAttributeSame | src/Skwi/Bundle/ProjectBaseBundle/Manager/BaseManager.php:179 | two names select the same property if and only if they are equal apart from the case of their first letter (`lcfirst` lowers only the first byte) |
| Managers.EntityClassInjective | src/Skwi/Bundle/ProjectBaseBundle/Manager/BaseManager.php:217 | the class name built from the namespace determines the entity name it was built from |
| Managers.BaseManager.constructor | src/Skwi/Bundle/ProjectBaseBundle/Manager/BaseManager.php:18-47 | a fresh manager holds the injected entity manager; the string properties are null, modelled as `""` (which is how the class reads them when it interpolates them); the repository, the default page size and every declared repository property are null |
| Managers.BaseManager.SetEntityManager | src/Skwi/Bundle/ProjectBaseBundle/Manager/BaseManager.php:68-71 | stores the entity manager and nothing else |
| Managers.BaseManager.SetBundleName | src/Skwi/Bundle/ProjectBaseBundle/Manager/BaseManager.php:86-89 | stores the bundle name and nothing else |
| Managers.BaseManager.SetBundleNamespace | src/Skwi/Bundle/ProjectBaseBundle/Manager/BaseManager.php:95-98 | stores the bundle namespace and nothing else |
| Managers.BaseManager.SetPagerDefaultMaxPerPage | src/Skwi/Bundle/ProjectBaseBundle/Manager/BaseManager.php:377-380 | stores the default page size and nothing else |
| Managers.BaseManager.DecodeEntityName | src/Skwi/Bundle/ProjectBaseBundle/Manager/BaseManager.php:108-130 | on a matching reference: the captured name goes into the entity property and the repository for the whole reference goes into the repository property, each only when that argument is truthy. On any other reference nothing changes and no error is raised |
| Managers.BaseManager.SetEntity | src/Skwi/Bundle/ProjectBaseBundle/Manager/BaseManager.php:77-80 | on a match, `entityName` is the captured name and `repository` the repository for the whole reference; otherwise both keep their values; other repository properties never change |
| Managers.BaseManager.Save | src/Skwi/Bundle/ProjectBaseBundle/Manager/BaseManager.php:138-141 | appends `persist(e)`, `flush` to the log and returns `e` |
| Managers.BaseManager.PersistAndFlush | src/Skwi/Bundle/ProjectBaseBundle/Manager/BaseManager.php:228-234 | appends `persist(e)`, `flush` and returns `e` |
| Managers.BaseManager.Persist | src/Skwi/Bundle/ProjectBaseBundle/Manager/BaseManager.php:242-247 | appends only `persist(e)` and returns `e` |
| Managers.BaseManager.Flush | src/Skwi/Bundle/ProjectBaseBundle/Manager/BaseManager.php:253-256 | appends only `flush` |
| Managers.BaseManager.Delete | src/Skwi/Bundle/ProjectBaseBundle/Manager/BaseManager.php:149-155 | appends `remove(e)`, `flush` and returns 1 |
| Managers.BaseManager.Remove | src/Skwi/Bundle/ProjectBaseBundle/Manager/BaseManager.php:163-166 | appends only `remove(e)` |
| Managers.BaseManager.RepositoryProperty | src/Skwi/Bundle/ProjectBaseBundle/Manager/BaseManager.php:181 | `$this->$repositoryAttr`: the `repository` property, a declared repository property, or null for an undefined one |
| Managers.BaseManager.Find | src/Skwi/Bundle/ProjectBaseBundle/Manager/BaseManager.php:177-182 | it fails exactly when the selected repository property is undefined or null; otherwise it returns what that repository holds for the id (possibly null) |
| Managers.BaseManager.FindByName | src/Skwi/Bundle/ProjectBaseBundle/Manager/BaseManager.php:179-181 | `find(id, name)` reads only the declared `lcfirst(name) . 'Repository'` property and fails when it is undefined or null |
| Managers.BaseManager.FindDefault | src/Skwi/Bundle/ProjectBaseBundle/Manager/BaseManager.php:179-181 | `find(id)` reads the `repository` property set by `setEntity` |
| Managers.BaseManager.CreateNewClass | src/Skwi/Bundle/ProjectBaseBundle/Manager/BaseManager.php:217 | the class `createNew` instantiates: the given class name when it is truthy, otherwise `entityName`, under `<bundleNamespace>\Entity\`; characterised by `CreateNewFallsBack` and `CreateNewDistinguishesClasses` |
| Managers.BaseManager.CreateNewFallsBack | src/Skwi/Bundle/ProjectBaseBundle/Manager/BaseManager.php:217 | null, `""` and `"0"` all build the managed entity's class `<bundleNamespace>\Entity\<entityName>` |
| Managers.BaseManager.CreateNewDistinguishes | src/Skwi/Bundle/ProjectBaseBundle/Manager/BaseManager.php:217 | two different truthy class names build two different class-name strings |
| Managers.BaseManager.CreateNewDistinguishesClasses | src/Skwi/Bundle/ProjectBaseBundle/Manager/BaseManager.php:217 | two truthy class names that differ beyond ASCII case build class names that differ beyond case, also once a leading `\` is dropped, so they name two different PHP classes |
| Managers.BaseManager.GetPagerFromQueryBuilder | src/Skwi/Bundle/ProjectBaseBundle/Manager/BaseManager.php:387-396 | the pager wraps the query, starts on page 1, and its page size is `maxPerPage` when that is a positive number, the configured default otherwise |
| Managers.BaseManager.FindAllPaginated | src/Skwi/Bundle/ProjectBaseBundle/Manager/BaseManager.php:198-207 | fails in this class's own code exactly when no repository is set; otherwise it returns a pager over the repository's query with alias `e`, the page size of `getPagerFromQueryBuilder`, and its current page set to `page` |
| Managers.BaseManager.PageSizeAlwaysPositive | src/Skwi/Bundle/ProjectBaseBundle/Manager/BaseManager.php:392 | once a positive default is configured, every pager has a positive page size |
| Managers.BaseManager.FindAllPaginatedDefault | src/Skwi/Bundle/ProjectBaseBundle/Manager/BaseManager.php:198-206 | with the default argument, a pager shows ten records a page |
| Managers.BaseManager.ToggleState | src/Skwi/Bundle/ProjectBaseBundle/Manager/BaseManager.php:262-276 | without `getState` it fails and neither the log nor the record changes. Otherwise the state becomes `!old`, exactly `persist`, `flush` is appended, and the new state is returned |
| Managers.BaseManager.CheckInstanceClass | src/Skwi/Bundle/ProjectBaseBundle/Manager/BaseManager.php:320 | the class string `checkInstance` builds: `<bundleNamespace>\Entity\`, without the entity name |
| Managers.BaseManager.CheckInstance | src/Skwi/Bundle/ProjectBaseBundle/Manager/BaseManager.php:318-322 | `checkInstance` as written: false for null and non-objects, otherwise `is_a` against `CheckInstanceClass`; characterised by `CheckInstanceNeverHolds` |
| Managers.BaseManager.Resolve | src/Skwi/Bundle/ProjectBaseBundle/Manager/BaseManager.php:332-334 | a string or integer argument is replaced by `find($entity)` (which may fail or give null); a record is kept; any other value is not an instance |
| Managers.BaseManager.ManagedClass | src/Skwi/Bundle/ProjectBaseBundle/Manager/BaseManager.php:217 | the managed entity's class `<bundleNamespace>\Entity\<entityName>`, the one `createNew()` instantiates |
| Managers.BaseManager.CheckManagedInstance | src/Skwi/Bundle/ProjectBaseBundle/Manager/BaseManager.php:313-321 | `checkInstance` as its documentation describes it: the record is an instance of the managed entity's class, by `is_a` |
| Managers.BaseManager.SwitchOutcome | src/Skwi/Bundle/ProjectBaseBundle/Manager/BaseManager.php:332-343 | the decision `switchState` takes, read before it changes anything: the `find` error, the instance error for null or a failed class check, the missing-`getState` error, or the switched state; characterised by `SwitchStateAlwaysFails` and `SwitchIntendedSucceeds` |
| Managers.BaseManager.CheckInstanceNeverHolds | src/Skwi/Bundle/ProjectBaseBundle/Manager/BaseManager.php:318-322 | `checkInstance` as written is false for null and for every record with legal class names |
| Managers.BaseManager.ManagedInstanceAccepted | src/Skwi/Bundle/ProjectBaseBundle/Manager/BaseManager.php:215-220 | the corrected check accepts a record of the class `createNew()` builds (named without the leading `\` a namespace may carry) |
| Managers.BaseManager.ManagedInstanceRejectsSibling | src/Skwi/Bundle/ProjectBaseBundle/Manager/BaseManager.php:318-322 | the corrected check rejects a record whose class is another entity of the same bundle, with no ancestors |
| Managers.BaseManager.SwitchStateChecking | src/Skwi/Bundle/ProjectBaseBundle/Manager/BaseManager.php:330-344 | a string or integer is resolved with `find`. A failed class check throws, with no save and no state change. Otherwise the state becomes 0 if it was `=== 1` and 1 otherwise, exactly one save is logged, and the new state is returned |
| Managers.BaseManager.SwitchState | src/Skwi/Bundle/ProjectBaseBundle/Manager/BaseManager.php:330-344 | as written, which is the same with the class check against `<bundleNamespace>\Entity\`. For records with legal class names it always fails and saves nothing |
| Managers.BaseManager.SwitchStateIntended | src/Skwi/Bundle/ProjectBaseBundle/Manager/BaseManager.php:330-344 | the same with the class check against the managed entity's class |
| Managers.BaseManager.SwitchIntendedSucceeds | src/Skwi/Bundle/ProjectBaseBundle/Manager/BaseManager.php:336-340 | with the corrected check, a managed record with `getState` is switched: the integer 1 to 0, anything else to 1 |
| Managers.BaseManager.SwitchStateAlwaysFails | src/Skwi/Bundle/ProjectBaseBundle/Manager/BaseManager.php:336-343 | as written, the outcome is an error for every argument whose records have legal class names |

## Left out

### Left out of the model
- `isNew`, `findAll`, `getByField`, `getAllByField` and `getSingleScalarField` (lines 188-191, 284-310, 362-371): they only pass through to Doctrine's unit of work, repositories and DQL, whose behaviour is not part of this model.
- `setKernelRootDir` (lines 59-62): `kernelRootDir` is never read.
- Pagerfanta and DoctrineORMAdapter: the model covers only the page size and current page the class sets. Slicing, page counts and Pagerfanta's own rejection of a null or non-positive page size are left out.
- Managers.BaseManager.FindAllPaginated: `setCurrentPage($page)` (line 204) is Pagerfanta's. It throws for a page below 1 or a non-integer page, and by default for a page past the last. The model stores any integer page and fails only where this class's own code does.
- Doctrine's entity manager, in favour of an abstract one:
  - `persist`, `remove` and `flush` append to a log;
  - `getRepository` returns an opaque handle named by the reference;
  - `find` reads a fixed table.
  - Unit-of-work state, identity maps and transactions are left out.
- `new $class()` in `createNew` (line 219): the model derives only the class name, because instantiating a class by name is reflection.
- Reflection: `property_exists`, `method_exists` and dynamic `$this->$prop` are modelled by record flags and by an explicit map of declared repository properties.

### Weaker contracts
- Managers.BaseManager.DecodeEntityName: the `NoSuchPropertyException` at lines 111-118 is replaced by preconditions. The entity property must be `entityName`, and the repository property must be `repository` or a declared repository property. This also means the model cannot write the captured name into some other existing property. The throw cannot occur through `setEntity`, and its message calls `get_class` on an undefined variable.
- EntityNames.MatchReference: the bundle name is taken literally, so a name containing regular-expression metacharacters is not modelled. PCRE's `$` also matching just before a final newline is not modelled either.
- Slugs.Slug: characters stand for bytes. The non-`/u` `preg_replace` is bytewise, and a multi-byte character becomes a run of `-` that collapses to a single `-` in both readings.
- Managers.BaseManager.GetPagerFromQueryBuilder: the page size is an optional integer. PHP's loose `>` comparison of strings or other types with 0 is not modelled.
- Managers.BaseManager.ToggleState: `setState` is assumed to exist whenever `getState` does. Calling a missing method is modelled by the same error as the explicit check.
- Managers.BaseManager.Find: PHP's fatal error on calling `find` through a null or undefined property is modelled as a `NoRepository` error naming the property. A string or integer identifier is passed unchanged to the repository table.
- Managers.BaseManager.constructor: the entity manager is a constructor argument. In the PHP, `$em` is null until `setEntityManager` (lines 68-71) is called, so the fatal error of a `save` or `flush` before injection cannot be expressed. The string properties start as `""` rather than null. Nothing in the class tells the two apart except through interpolation, where null reads as `""`.
- PhpValues.Truthy: a record's state is null, a boolean, an integer or a string. Floats, arrays and objects are not modelled, so `!` and `=== 1` on them are out of reach. For example, `1.0 === 1` is false, so a state of `1.0` switches to 1.
- Managers.BaseManager.SwitchState: the claim that it always fails holds only when every class name involved is a legal PHP class name, that is non-empty and not ending in `\`.

## Findings

| source | as written | input that shows it | evidently intended | confidence | as-written member | corrected member |
|---|---|---|---|---|---|---|
| src/Skwi/Bundle/ProjectBaseBundle/Manager/BaseManager.php:320 | `sprintf('%s\\Entity\\', bundleNamespace, entityName)` has one placeholder, so the class tested by `is_a` is `<bundleNamespace>\Entity\`. That name ends with `\`, which no PHP class name does, so `checkInstance` is always false and `switchState` always throws without saving | bundleNamespace `Acme\BlogBundle`, entityName `Post`, a record of class `Acme\BlogBundle\Entity\Post`: `is_a` receives `Acme\BlogBundle\Entity\` and returns false | `is_a($entity, '<bundleNamespace>\Entity\<entityName>')` (a leading `\` of the namespace is dropped by the class lookup): accept records of the managed class or a subclass, then flip the state between 0 and 1 | high; not executed | Managers.BaseManager.SwitchStateAlwaysFails | Managers.BaseManager.SwitchIntendedSucceeds |
