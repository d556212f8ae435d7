# codegen-views: the path and member helpers of `Utils\CodeGen`

The repository's code generator turns every PHP view class stored under
`src/Services/View/` into a TypeScript client stub. The stub has one
function per exposed public method. Its file is `assets/js/views/<path>.ts`,
where `<path>` is the class's slash-delimited view path. The generator
script rewrites that view path into the class path each function sends to
the dispatcher (.codegen/CreateViewsFront/codegen.js:142, 174): it turns
`/` into `\\` and removes the first `View`, so the sample sends `Ecommerce`.
The script gets what it knows about a class from the static helpers of
`Utils\CodeGen`. This project models those helpers and proves properties of
them.

- `getClassFromFileName` derives the fully qualified class name from a file
  path. It removes every `src/`, adds a leading `\`, turns every `/` into
  `\` and removes every `.php`. This is `CodeGen.ClassFromFileName`.
- `getViewPath` walks the `/`-segments of the file path. A flag (`$achou`)
  is raised at the first `View` segment. It skips every `View` segment and
  every segment before the flag, joins the rest with `/` and removes
  `.php`. This is `CodeGen.GetViewPath`, a method with the same loop,
  proved equal to the function `CodeGen.ViewPath`.
- `getViewMethods` goes through the public methods in reflection order. It
  skips `__construct` and every name that starts with `_`, and for every
  other method it builds a record holding the method's name and its
  parameter records. This is `CodeGen.GetViewMethods`, proved equal to
  `CodeGen.ViewMethods`.
- `getMethodParameters` builds one record per parameter: the name, the type
  `"mixed"` and whether the parameter is optional. This is
  `CodeGen.GetMethodParameters`, proved equal to `CodeGen.ParameterRecords`.

The PHP string built-ins these helpers use are modelled in `PhpStrings`:

- `str_replace` is `ReplaceAll`. It makes one left-to-right pass and
  replaces every occurrence that does not overlap an earlier replaced one.
  An empty search string leaves the subject unchanged.
- `explode` with a one-character delimiter is `Explode`. It keeps empty
  pieces.
- `implode` is `Implode`.

`Sequences.Filter` is the order-preserving selection that a `foreach` with
`continue` and `$a[] = ...` performs.

`EcommerceViewSample` applies the helpers to the repository's sample view,
`src/Services/View/EcommerceView.php`:

- the class name is `\Services\View\EcommerceView`;
- the view path is `EcommerceView`;
- of its eight public methods, the three whose names start with `_` are
  dropped and the other five are kept in declaration order.

Reflection is not modelled. A `ReflectedMethod` or `ReflectedParameter`
value stands for what `ReflectionClass::getMethods(IS_PUBLIC)` and
`ReflectionMethod::getParameters` would report, and these values are passed
in as data.

The mapping of PHP parameter types to TypeScript types lives in the
generator script (.codegen/CreateViewsFront/codegen.js:22-130), not in
`Utils/CodeGen.php`. Parameter records leave `Utils/CodeGen.php` with the
type `"mixed"`, and this model follows that code.

## Model

| member | source | states |
|---|---|---|
| CodeGen.ClassFromFileName | Utils/CodeGen.php:29-35 | The class name derived from any file name is non-empty, starts with `\` and holds no `/`. |
| CodeGen.ClassFromFileNameSegments | Utils/CodeGen.php:30-32 | Turning every `/` into `\` equals splitting the path at `/` and joining the segments with `\`. |
| CodeGen.AfterFirstView | Utils/CodeGen.php:45-51 | The segments after the first `View`: a suffix of the input. Without a `View` it is empty. Otherwise the segment just before it is `View` and no earlier segment is. |
| CodeGen.ViewSegments | Utils/CodeGen.php:45-54 | The collected segments: none of them is `View`, and each is a segment of the input. |
| CodeGen.ViewPath | Utils/CodeGen.php:42-57 | `getViewPath` as a function: the collected segments joined with `/`, less `.php`. It is `""` when no segment is `View`. `ViewSegmentsAfterFirstView` characterises which segments it keeps. |
| CodeGen.GetViewPath | Utils/CodeGen.php:42-57 | The loop with the `$achou` flag computes `ViewPath(file)`. A path with no `View` segment gives the empty string. |
| CodeGen.ViewSegmentsSnoc | Utils/CodeGen.php:46-53 | One loop step: a segment is collected exactly when a `View` came before it and it is not `View` itself. |
| CodeGen.ViewSegmentsAfterFirstView | Utils/CodeGen.php:45-54 | For segments made of a `View`-free prefix, a first `View` and a suffix, the kept segments are exactly the suffix's non-`View` segments, in their order. |
| CodeGen.ViewSegmentsWithoutView | Utils/CodeGen.php:45-54 | When no segment is `View`, the flag is never raised and nothing is kept. |
| CodeGen.AfterFirstViewSnoc | Utils/CodeGen.php:45-53 | One more segment lands after the first `View` exactly when a `View` came before it. Otherwise nothing follows the first `View`. |
| CodeGen.ParameterRecords | Utils/CodeGen.php:80-90 | One record per parameter, same count and order. Each record copies the name and the optional flag, and its type is `"mixed"`. |
| CodeGen.GetMethodParameters | Utils/CodeGen.php:80-90 | The loop that appends a record per parameter computes `ParameterRecords(params)`. |
| CodeGen.IsExposed | Utils/CodeGen.php:63-69 | The two `continue` tests. A name is exposed exactly when it does not start with `_`, so the `__construct` test is subsumed by the `_` test. |
| CodeGen.Describe | Utils/CodeGen.php:71-74 | The record for a kept method has the method's name and one parameter record per parameter. |
| CodeGen.ViewMethods | Utils/CodeGen.php:59-78 | `getViewMethods` as a function: never more records than methods. `ViewMethodsMembers` and `ViewMethodNames` characterise its records. |
| CodeGen.GetViewMethods | Utils/CodeGen.php:59-78 | The loop that skips `__construct` and names starting with `_`, and appends a name-and-parameters record for the rest, computes `ViewMethods(methods)`. |
| CodeGen.ViewMethodsMembers | Utils/CodeGen.php:62-75 | Every record describes an exposed input method (name and parameter records). Every exposed input method is described. |
| CodeGen.ViewMethodNames | Utils/CodeGen.php:62-75 | The record names are exactly the exposed input names, in input order, one per exposed method. |
| CodeGen.ViewMethodsAppend | Utils/CodeGen.php:62-75 | Building records commutes with concatenating method lists, so the relative order of methods is kept. |
| PhpStrings.ReplaceAll | Utils/CodeGen.php:30-32 | `str_replace` with one search string. An empty search string leaves the subject unchanged, and a replacement as long as the search string keeps the length. The lemmas below characterise the left-to-right scan. |
| PhpStrings.ReplaceAllChars | Utils/CodeGen.php:30-32 | Every character of a `str_replace` result comes from the subject or from the replacement. |
| PhpStrings.ReplaceAllNoOccurrence | Utils/CodeGen.php:30-32 | A subject without an occurrence of the search string comes back unchanged. |
| PhpStrings.ReplaceCharPointwise | Utils/CodeGen.php:31 | Replacing one character by another keeps the length and works position by position. |
| PhpStrings.ReplaceAllSkip | Utils/CodeGen.php:30-32 | A prefix free of the search string's first character is copied unchanged. |
| PhpStrings.ReplaceAllAbsentChar | Utils/CodeGen.php:30-32 | A subject lacking some character of the search string comes back unchanged. |
| PhpStrings.ReplaceAllSuffix | Utils/CodeGen.php:32 | A trailing occurrence after a prefix free of its first character is cut off. |
| PhpStrings.ReplaceAllLeftmostNonOverlapping | Utils/CodeGen.php:30-32 | Occurrences are taken from the left and do not overlap: `str_replace("aa", "b", "aaa")` is `"ba"`. |
| PhpStrings.Explode | Utils/CodeGen.php:45 | `explode` always yields at least one piece, and no piece holds the delimiter. |
| PhpStrings.Implode | Utils/CodeGen.php:56 | `implode` of no pieces is the empty string. Otherwise the first piece starts the result. |
| PhpStrings.ImplodeConsPrefix | Utils/CodeGen.php:56 | Text prepended to the first piece is prepended to the joined string. |
| PhpStrings.ImplodeExplode | Utils/CodeGen.php:45-56 | Joining the pieces of a split with the same delimiter gives back the subject. |
| PhpStrings.ExplodeImplode | Utils/CodeGen.php:45-56 | Splitting a join of delimiter-free pieces gives back the pieces. |
| PhpStrings.ExplodeNoSeparator | Utils/CodeGen.php:45 | A subject free of the delimiter is the only piece. |
| PhpStrings.ExplodePrefix | Utils/CodeGen.php:45 | The first piece absorbs a delimiter-free prefix. |
| PhpStrings.ExplodeSegment | Utils/CodeGen.php:45 | A delimiter-free piece followed by the delimiter becomes a piece of its own. |
| PhpStrings.ExplodeCount | Utils/CodeGen.php:45 | There is exactly one piece more than there are delimiters. |
| PhpStrings.ReplaceAfterPiece | Utils/CodeGen.php:31 | A delimiter-free piece is copied, and the delimiter after it is replaced. |
| PhpStrings.ReplaceGlue | Utils/CodeGen.php:31 | Replacing the delimiter of a joined list by another character equals joining with that character. |
| Sequences.Filter | Utils/CodeGen.php:45-54 | The selection is no longer than the input. An element is in it exactly when it is in the input and kept. |
| Sequences.FilterAppend | Utils/CodeGen.php:45-54 | Selection commutes with concatenation, so kept elements keep their relative order. |
| Sequences.Map | Utils/CodeGen.php:72 | One result per element, in order, each the function applied to that element. |
| EcommerceViewSample.ClassOfServicesViewFile | Utils/CodeGen.php:29-35 | A file `src/Services/View/<name>.php`, where the name has no `/` or `.`, has class `\Services\View\<name>`. |
| EcommerceViewSample.ClassOfEcommerceView | src/Services/View/EcommerceView.php:3-5 | The class name derived from the sample's file is `\Services\View\EcommerceView`, its declared namespace and class. |
| EcommerceViewSample.ServicesViewWithoutSrc | Utils/CodeGen.php:30 | Only the leading `src/` of such a file is removed. |
| EcommerceViewSample.ServicesViewBackslashed | Utils/CodeGen.php:31 | Both remaining `/` become `\`. |
| EcommerceViewSample.ServicesViewWithoutExtension | Utils/CodeGen.php:32 | The trailing `.php` is cut off. |
| EcommerceViewSample.ExplodeThreeDirectories | Utils/CodeGen.php:45 | Three directories and a file name, joined by a delimiter none of them holds, split back into those four pieces. |
| EcommerceViewSample.ExplodeServicesViewFile | Utils/CodeGen.php:45 | The segments of `src/Services/View/<last>` are `src`, `Services`, `View`, `<last>`. |
| EcommerceViewSample.ViewPathOfServicesViewFile | Utils/CodeGen.php:42-57 | Such a file has the file name without `.php` as its view path. |
| EcommerceViewSample.ViewPathOfEcommerceView | Utils/CodeGen.php:42-57 | The sample's view path is `EcommerceView`. |
| EcommerceViewSample.ViewMethodsOfFour | Utils/CodeGen.php:62-75 | Any four methods yield, in order, the record of each one that is exposed. |
| EcommerceViewSample.ExposedMethodsOfFirstHalf | src/Services/View/EcommerceView.php:7-27 | Of the first four methods, `_montarSelectEcommerces` is dropped and the other three are described in order. |
| EcommerceViewSample.ExposedMethodsOfSecondHalf | src/Services/View/EcommerceView.php:29-39 | Of the last four methods, `_obterPlataforma` and `_obterComAdicionais` are dropped and the other two are described in order. |
| EcommerceViewSample.ExposedMethodsOfEcommerceView | src/Services/View/EcommerceView.php:5-40 | Of the eight public methods, the three whose names start with `_` are dropped and the other five are described in declaration order. |

## Left out

- `globRecursive` (Utils/CodeGen.php:21-27) lists the file system with `glob`. The file system is I/O.
- `getViewName` (Utils/CodeGen.php:37-40) loads the class through `ReflectionClass` to read its short name. Class loading is not modelled.
- `getMethodsToReplicate` (Utils/CodeGen.php:125-165) matches a regular expression against doc comments, calls the method and JSON-encodes its result. That needs reflection, PCRE, calling foreign code and `json_encode`.
- The commented-out doc-comment type lookup (Utils/CodeGen.php:92-117) is not part of the program.
- `getViewMethods` gets its methods by reflecting on the class named by `getClassFromFileName`. The model takes the reflected method list as its input instead, so a file whose class cannot be loaded is not modelled.
- Strings are sequences of characters. PHP strings are bytes, and `mb_strpos` decodes multibyte characters. Only the test "does the name start with `_`" matters here, and it means the same either way.
- PHP's loose `==` is modelled as string equality. Both sides are always strings, and `"View"` and `"__construct"` are not numeric strings.
- The generator script under `.codegen/` is not part of this model. That covers its PHP-to-TypeScript type mapping (`getTypeFromDefaultValue`, `parsePhpTypeToTypescriptType`, `parseType`, `parseUnionType`, `buildMethodReturnType`, codegen.js:22-130), the rewrite of the view path into the stub's class path (codegen.js:142) and the TypeScript output it writes.
