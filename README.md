# WordPress theme framework helpers — a Dafny model

This project models the two parts of the theme framework's helper layer that have
behaviour of their own, apart from the WordPress runtime they sit in.

**The file helper** (`HappyFramework\Helpers\File`):

- `sizeToBytes` turns a size string such as `"64M"` or `"2g"` into bytes.
  - A string that `is_numeric` accepts is returned as its `(int)` cast.
  - Any other string is trimmed and its last character split off as the unit suffix.
  - A fall-through `switch` on the upper-cased suffix then multiplies the rest by 1024 once per unit step: K, M, G, T, P.
- `pathToId` prepares a path before its database lookup.
  - It removes every occurrence of the uploads base directory and base URL.
  - It then removes at most one leading `/`.
- `bytesToSize` returns `false` for a count that is zero or negative, and `"<n> Bytes"` below 1024.

**The option accessors** of the abstract admin option page (`AbstractOptionMenuItem`):

- Every page keeps its settings as one array in the host's options table, under the page's option key.
- `getOption` reads one entry of that array.
  - A missing or empty entry reads as `''`.
  - A non-empty default replaces an empty entry.
  - An attachment-shaped entry is unwrapped to an image URL.
- `setOption` writes one entry back through `update_option`.
- `deleteOption` removes one entry through `update_option`, only when the entry is set.
- The constructor derives the page's settings group from its option key.

## Modules

| file | module | contents |
|---|---|---|
| `wrappers.dfy` | `Wrappers` | `Option` |
| `php_text.dfy` | `PhpText` | character classes, `strtoupper` on one character, `trim` |
| `php_number.dfy` | `PhpNumber` | numeric strings (see below) |
| `php_value.dfy` | `PhpValue` | PHP values as options hold them, truthiness/`empty`, `$v[$key]`, `isset`, `(int)` |
| `file_helper.dfy` | `FileHelper` | `sizeToBytes`, the `pathToId` normalisation, the `bytesToSize` guard and "Bytes" branch |
| `option_menu_item.dfy` | `OptionMenu` | the options table as a class, the page class with `GetOption`, `SetOption` and `DeleteOption` |

`PhpNumber` covers PHP's numeric strings:

- the leading-numeric scan shared by `is_numeric`, `(int)` and arithmetic;
- truncation toward zero;
- the decimal rendering of an integer.

## PHP semantics

The model follows PHP 8:

- A numeric string may carry leading and trailing whitespace (space, `\t`, `\n`, `\r`, `\v`, `\f`).
- `trim` removes space, `\t`, `\n`, `\r`, `\0` and `\x0B`. It does not remove `\f`.
- Multiplying a string with no numeric prefix throws a `TypeError`; the model's result is `TypeError`.
- A string with a numeric prefix followed by text multiplies as its prefix; PHP warns.
- `substr` never returns `false`.
- Integers are unbounded.
- Floats are exact reals.
- `trim` removes NUL bytes but `is_numeric` does not accept them as whitespace. So `"64\0"` is not numeric: its last digit becomes the suffix and the result is the text `"6"`.

Host functions that cannot be modelled become parameters:

- `sanitize_html_class` becomes `sanitizeHtmlClass` in the page constructor.
- `wp_get_attachment_image_src` becomes `imageSrc`, which returns the image URL or `None`.
- `get_option`/`update_option` become the class `OptionsTable`.
- The instance the static accessors resolve is a nullable `OptionMenuItem?`; `null` means none resolved.

## Model

| member | source | states |
|---|---|---|
| FileHelper.SizeToBytes | classes/helper/class-helper-file.php:137-163 | a numeric input is returned as its `(int)` truncation; the suffix branch is not taken for it |
| FileHelper.UnitSteps | classes/helper/class-helper-file.php:147-158 | the switch runs at most five multiplications, and only for a one-character suffix whose upper-case form is the matching letter of K, M, G, T, P |
| FileHelper.FallThroughScales | classes/helper/class-helper-file.php:147-158 | entering the fall-through switch k labels above K multiplies by exactly 1024^k, keeping int as int and float as float |
| FileHelper.FallThroughStep | classes/helper/class-helper-file.php:148-157 | entering one label higher multiplies the result by 1024 once more |
| FileHelper.UnitLetterSteps | classes/helper/class-helper-file.php:147-158 | the k-th unit letter selects the case label that runs k multiplications |
| FileHelper.LowerLetterSteps | classes/helper/class-helper-file.php:147 | a lower-case letter selects the same label as its upper-case form |
| FileHelper.EndsInLetterNotNumeric | classes/helper/class-helper-file.php:141-143 | a string ending in a character that is no digit, no point, no numeric whitespace and no trim character is never numeric, so it takes the suffix branch |
| FileHelper.SuffixResult | classes/helper/class-helper-file.php:146-158 | the result is text exactly when no case label matches, a TypeError exactly when a label matches and the magnitude has no numeric prefix, and an int exactly when a label matches an integer prefix; its scaling is `SuffixScales` |
| FileHelper.FallThrough | classes/helper/class-helper-file.php:148-157 | the chain of `*= 1024` keeps an int an int and a float a float, and does nothing when no label matched; its closed form is `FallThroughScales` |
| FileHelper.SuffixSplitGeneral | classes/helper/class-helper-file.php:144-146 | a non-numeric input is trimmed, its last non-trim character is the suffix whatever it is (a letter, a digit, a point), and the left-trimmed rest is the magnitude |
| FileHelper.SuffixSplit | classes/helper/class-helper-file.php:141-146 | an input ending in a character that cannot belong to a number is not numeric, its last character is the suffix, and the left-trimmed rest is the magnitude |
| FileHelper.SuffixSplitTrailing | classes/helper/class-helper-file.php:141-146 | for an input whose last non-trim character cannot belong to a number, the input is not numeric and trailing trim characters are removed first: that character is the suffix and the left-trimmed rest the magnitude |
| FileHelper.TrailingTrimIgnored | classes/helper/class-helper-file.php:144 | trim characters after the suffix never change the result |
| FileHelper.SuffixScales | classes/helper/class-helper-file.php:147-158 | suffix K, M, G, T, P scales the magnitude's numeric prefix by 1024^1 … 1024^5; a magnitude with no numeric prefix is a TypeError |
| FileHelper.CaseInsensitive | classes/helper/class-helper-file.php:147 | a lower-case suffix gives the same result as its upper-case form |
| FileHelper.NextUnit | classes/helper/class-helper-file.php:148-157 | for the same magnitude, each next-larger unit gives exactly 1024 times the previous unit's result |
| FileHelper.SuffixResultStep | classes/helper/class-helper-file.php:148-157 | one more case label multiplies the suffix branch's result by 1024 |
| FileHelper.UnknownSuffixDropped | classes/helper/class-helper-file.php:145-159 | in a non-numeric input whose last character is no unit (a letter, a digit, a point), the result is the left-trimmed input without that character, unscaled, as text |
| FileHelper.ByteLabelIsText | classes/helper/class-helper-file.php:145-159 | a byte label such as `KB` or `MB` is not understood: for every magnitude, the `B` is dropped and the left-trimmed rest with its unit letter comes back unscaled, as text (`"10KB"` gives `"10K"`) |
| FileHelper.NulEndedSplit | classes/helper/class-helper-file.php:141-146 | a trailing NUL byte forces the suffix branch for every input: `trim` removes it, but it is no numeric whitespace |
| FileHelper.NulEndedDigits | classes/helper/class-helper-file.php:141-146 | a digit string followed by NUL gives the text without its last digit (`"64\0"` gives `"6"`, while `"64"` gives 64) |
| FileHelper.SixtyFourMegabytes | classes/helper/class-helper-file.php:147-158 | `"64M"` and `"64m"` both give 67108864 |
| FileHelper.SixtyFourMegabytesNewline | classes/helper/class-helper-file.php:144-158 | `"64M\n"` gives 67108864, as `"64M"` does |
| FileHelper.DigitsOperand | classes/helper/class-helper-file.php:146-157 | a magnitude made only of digits is its own left-trimmed form and multiplies as the integer those digits spell |
| FileHelper.DecimalSize | classes/helper/class-helper-file.php:141-142 | the decimal form of any natural number n comes back as the integer n |
| FileHelper.NumericFractionTruncated | classes/helper/class-helper-file.php:141-142 | a numeric input `"a.b"` gives the integer a: the fraction is cut off, not rounded |
| FileHelper.NormaliseUploadPath | classes/helper/class-helper-file.php:22-23 | the normalised path is never longer than the input; `UploadPathRelative` and the `RemoveAll` lemmas give its content |
| FileHelper.RemoveAll | classes/helper/class-helper-file.php:22 | removing occurrences never lengthens the path |
| FileHelper.RemoveAllKeepsClean | classes/helper/class-helper-file.php:22 | a prefix in which no occurrence of the search string starts is kept unchanged |
| FileHelper.RemovesEveryOccurrence | classes/helper/class-helper-file.php:22 | the first occurrence is cut out and the scan goes on behind it, so later occurrences go too, not only a leading one |
| FileHelper.RemoveAllUnchangedIff | classes/helper/class-helper-file.php:22 | the path changes if and only if a non-empty search string occurs in it |
| FileHelper.RemoveAllShrinks | classes/helper/class-helper-file.php:22 | when the search string occurs, the path gets strictly shorter |
| FileHelper.RemoveAllAbsent | classes/helper/class-helper-file.php:22 | when the search string does not occur, the path is unchanged |
| FileHelper.StripLeadingSlash | classes/helper/class-helper-file.php:23 | exactly one leading `/` is removed when there is one; otherwise nothing changes |
| FileHelper.UploadPathRelative | classes/helper/class-helper-file.php:22-23 | an absolute path under the uploads base dir becomes the path relative to it |
| FileHelper.UploadUrlRelative | classes/helper/class-helper-file.php:22-23 | a URL under the uploads base URL becomes the path relative to it |
| FileHelper.BytesToSize | classes/helper/class-helper-file.php:106-116 | the result is `false` exactly when bytes <= 0, and a "Bytes" label exactly when 0 < bytes < 1024 |
| FileHelper.BytesLabelCount | classes/helper/class-helper-file.php:111-112 | the label is exactly the decimal rendering of the count (all digits, no leading zero, spelling the count) followed by `" Bytes"`, and its `(int)` cast is the count |
| PhpText.ToUpper | classes/helper/class-helper-file.php:147 | `strtoupper` shifts a-z to A-Z and leaves every other character alone |
| PhpText.TrimLeft | classes/helper/class-helper-file.php:144 | the result is a suffix of the input; only trim characters were dropped; it does not start with one |
| PhpText.TrimRight | classes/helper/class-helper-file.php:144 | the result is a prefix of the input; only trim characters were dropped; it does not end with one |
| PhpText.Trim | classes/helper/class-helper-file.php:144 | the trimmed string is a contiguous piece of the input and neither starts nor ends with a trim character |
| PhpText.TrimLeftBefore | classes/helper/class-helper-file.php:144 | `ltrim` keeps everything from the first non-trim character on |
| PhpText.TrimRightTrailing | classes/helper/class-helper-file.php:144 | `rtrim` removes exactly the trim characters written after the last non-trim character |
| PhpText.TrimOfLeftTrimmed | classes/helper/class-helper-file.php:144 | when `ltrim` leaves a non-empty x ending in a non-trim character followed only by trim characters, `trim` gives exactly x |
| PhpText.TrimWithTrailing | classes/helper/class-helper-file.php:144 | trimming a string whose last non-trim character is followed only by trim characters ends at that character |
| PhpText.TrimLeftAppend | classes/helper/class-helper-file.php:144 | appending a non-trim character commutes with trimming on the left |
| PhpText.TrimEndingIn | classes/helper/class-helper-file.php:144 | trimming a string that ends in a non-trim character only trims its left side |
| PhpNumber.IsNumeric | classes/helper/class-helper-file.php:141 | `is_numeric`: the leading numeric prefix is followed only by numeric whitespace; `DecimalIsNumeric`, `FractionCast`, `NumericLastChar` and `NotNumericAt` state which strings pass |
| PhpNumber.IntCast | classes/helper/class-helper-file.php:142 | `(int)`: the truncation of the leading numeric prefix, 0 without one; `DecimalIsNumeric`, `FractionCast` and `NegativeFractionCast` give its values |
| PhpNumber.ArithmeticOperand | classes/helper/class-helper-file.php:149-157 | the operand a string becomes in `$size *= 1024`: its numeric prefix, or none when PHP 8 throws; `DigitsOperand` gives it for digit runs |
| PhpNumber.NumberLength | classes/helper/class-helper-file.php:141-142 | the numeric prefix lies within the string and ends in a digit or a decimal point |
| PhpNumber.MantissaLength | classes/helper/class-helper-file.php:141-142 | the mantissa covers at least the leading digits and ends in a digit or a point |
| PhpNumber.UnsignedLength | classes/helper/class-helper-file.php:141-142 | an unsigned number, exponent included, ends in a digit or a point |
| PhpNumber.ExponentLength | classes/helper/class-helper-file.php:141-142 | an exponent is at least two characters long and ends in a digit |
| PhpNumber.NumberStart | classes/helper/class-helper-file.php:141-142 | the unsigned part starts after the leading whitespace, one character later exactly when that character is `+` or `-` |
| PhpNumber.Truncate | classes/helper/class-helper-file.php:142 | a float becomes the integer next to it toward zero |
| PhpNumber.Decimal | classes/helper/class-helper-file.php:112 | the decimal rendering of n is all digits with no leading zero, and spells n |
| PhpNumber.DigitsThenTextLength | classes/helper/class-helper-file.php:141-142 | digits followed by text that cannot continue a number form a numeric prefix of exactly that length |
| PhpNumber.DigitsThenText | classes/helper/class-helper-file.php:141-149 | that prefix is the integer the digits spell |
| PhpNumber.DecimalIsNumeric | classes/helper/class-helper-file.php:141-142 | a rendered natural number is numeric and casts back to itself |
| PhpNumber.NotNumericAt | classes/helper/class-helper-file.php:141 | a string with a non-number, non-whitespace character followed by no digit or point is not numeric |
| PhpNumber.NumericLastChar | classes/helper/class-helper-file.php:141 | a numeric string ends in a digit, a point or numeric whitespace |
| PhpNumber.FractionMantissa | classes/helper/class-helper-file.php:141-142 | the mantissa of `"a.b"` is the whole string |
| PhpNumber.FractionLength | classes/helper/class-helper-file.php:141-142 | `"a.b"` is one unsigned number with no exponent |
| PhpNumber.FractionScan | classes/helper/class-helper-file.php:141-142 | `"a.b"` is the float with integer digits a and fraction digits b |
| PhpNumber.FractionFloor | classes/helper/class-helper-file.php:142 | the integer part of `"a.b"` is a |
| PhpNumber.WholeNumberCast | classes/helper/class-helper-file.php:141-142 | a string that is one number from its first digit to its end is numeric and casts to the truncation of that number |
| PhpNumber.NegatedNumberCast | classes/helper/class-helper-file.php:141-142 | a minus sign in front keeps it numeric and negates what it casts to |
| PhpNumber.FractionCast | classes/helper/class-helper-file.php:141-142 | `"a.b"` is numeric and `(int)` gives a |
| PhpNumber.NegativeFractionCast | classes/helper/class-helper-file.php:141-142 | `"-a.b"` is numeric and `(int)` gives -a, toward zero, not -a-1 |
| PhpValue.Truthy | classes/option/class-option-menu-item-abstract.php:191-203 | PHP truthiness: null, false, 0, 0.0, `''`, `'0'` and the empty array are falsy |
| PhpValue.IsEmpty | classes/option/class-option-menu-item-abstract.php:191-203 | `empty()` is the negation of truthiness |
| PhpValue.IsSetAt | classes/option/class-option-menu-item-abstract.php:244 | `isset($v[$key])`: the key is present in an array and its value is not null |
| PhpValue.ToInt | classes/option/class-option-menu-item-abstract.php:199 | `(int)` of each kind of value, strings by their numeric prefix |
| PhpValue.Index | classes/option/class-option-menu-item-abstract.php:191-192 | `$v[$key]` is non-null only for a present key of an array, and then it is that entry |
| PhpValue.TruthyEntryTruthyContainer | classes/option/class-option-menu-item-abstract.php:191 | a non-empty entry can only come from a non-empty array, so the guard `$options &&` never rejects it |
| OptionMenu.OptionsTable.constructor | classes/option/class-option-menu-item-abstract.php:189 | the table starts with the given rows |
| OptionMenu.OptionsTable.Get | classes/option/class-option-menu-item-abstract.php:189 | `get_option` gives the stored value, or `false` for an absent option |
| OptionMenu.OptionsTable.Update | classes/option/class-option-menu-item-abstract.php:227 | `update_option` stores the value under the name and changes no other option |
| OptionMenu.OptionMenuItem.constructor | classes/option/class-option-menu-item-abstract.php:23-29 | the page keeps its title, key, slug and callback, and its group is the sanitised key followed by `-group` |
| OptionMenu.OptionMenuItem.GetOption | classes/option/class-option-menu-item-abstract.php:180-209 | null when no instance resolves; otherwise the entry resolved from the instance's stored option |
| OptionMenu.OptionMenuItem.SetOption | classes/option/class-option-menu-item-abstract.php:218-229 | with an instance, the entry is set in the stored option and written back; no write without an instance or on a stored scalar; every other option is unchanged |
| OptionMenu.OptionMenuItem.DeleteOption | classes/option/class-option-menu-item-abstract.php:237-250 | with an instance and a set entry, the option is written back without that entry; otherwise nothing changes; every other option is unchanged |
| OptionMenu.GroupName | classes/option/class-option-menu-item-abstract.php:27 | the group is the sanitised key followed by exactly `-group` |
| OptionMenu.GroupNameInjective | classes/option/class-option-menu-item-abstract.php:27 | different sanitised keys give different groups |
| OptionMenu.Chosen | classes/option/class-option-menu-item-abstract.php:188-196 | the entry when the option and the entry are non-empty, else a non-empty default, else `''`; `DefaultOnlyWhenEmpty` states it |
| OptionMenu.Unwrapped | classes/option/class-option-menu-item-abstract.php:197-205 | an attachment becomes the looked-up image URL, else its non-empty `url`, else null; other values are kept; `AttachmentWithoutImageSize` and `AttachmentLookupFails` state it |
| OptionMenu.ResolveOption | classes/option/class-option-menu-item-abstract.php:188-205 | the chosen value, unwrapped; `ResolveCases` states the whole rule |
| OptionMenu.Assigned | classes/option/class-option-menu-item-abstract.php:225 | a successful assignment yields an array holding the value under the key; `AssignedWritable` and `AssignedKeepsOthers` state when it succeeds and that nothing else changes |
| OptionMenu.Unset | classes/option/class-option-menu-item-abstract.php:244-245 | a delete yields, for an array where the key is set, the array with that key and no other removed |
| OptionMenu.ResolveCases | classes/option/class-option-menu-item-abstract.php:188-205 | the resolved value is a non-empty entry, else a non-empty default, else `''`, with an attachment then unwrapped |
| OptionMenu.EmptyReadsAsEmptyString | classes/option/class-option-menu-item-abstract.php:188-196 | a missing or empty entry with an empty default reads as `''` |
| OptionMenu.DefaultOnlyWhenEmpty | classes/option/class-option-menu-item-abstract.php:191-196 | a non-empty entry is kept whatever the default; the default is used only when the entry is empty and the default is not |
| OptionMenu.AttachmentWithoutImageSize | classes/option/class-option-menu-item-abstract.php:197-204 | without an image size, an attachment gives its non-empty `url`, else null |
| OptionMenu.AttachmentLookupFails | classes/option/class-option-menu-item-abstract.php:200-204 | when the image lookup fails, an attachment resolves as it would without an image size |
| OptionMenu.AssignedWritable | classes/option/class-option-menu-item-abstract.php:224-225 | the assignment succeeds exactly on an array, a missing option (`false`) or null |
| OptionMenu.AssignedKeepsOthers | classes/option/class-option-menu-item-abstract.php:225 | the assignment sets the entry to the value and leaves every other entry unchanged |
| OptionMenu.SetThenGet | classes/option/class-option-menu-item-abstract.php:188-227 | after setting a non-empty, non-attachment value, reading the entry gives that value back |
| OptionMenu.UnsetWritesIffSet | classes/option/class-option-menu-item-abstract.php:244-247 | a delete writes exactly when `isset` holds for the entry |
| OptionMenu.UnsetKeepsOthers | classes/option/class-option-menu-item-abstract.php:245 | a delete makes the entry read as null and leaves every other entry unchanged |
| OptionMenu.DeleteThenGet | classes/option/class-option-menu-item-abstract.php:188-247 | after a delete, reading the entry gives the default's resolution, or `''` |
| OptionMenu.DeleteUndoesSet | classes/option/class-option-menu-item-abstract.php:224-247 | deleting an entry just added to an array gives the array back |
| OptionMenu.NullEntryIsNotDeleted | classes/option/class-option-menu-item-abstract.php:244 | an entry set to null is not `isset`, so deleting it performs no write |

## Left out

- Hook and menu registration is not modelled. This covers `add_action`, `add_filter`, `add_menu_page`, `add_submenu_page` and `register_setting`, the settings-page HTML, `current_user_can`, `wp_die` and `flush_rewrite_rules`. These are calls into the host with no local behaviour.
- `Theme::getOptionInstanceByClassName` is not modelled; the resolved instance is a parameter instead.
- The page's `pre_update_option_` filter (`beforeUpdateOptions`, classes/option/class-option-menu-item-abstract.php:66-69) returns the new array unchanged. `OptionsTable.Update` writes the value as given accordingly.
- OptionMenu.OptionMenuItem.SetOption: a stored option that is an integer, a float or `true` makes PHP 8 throw on `$options[$variable] = $value`; the model performs no write instead of modelling the exception. A string-valued stored option is not modelled: with a numeric `$variable`, PHP writes a string offset and stores the changed string, while the model writes nothing.
- OptionMenu.OptionMenuItem.DeleteOption: a string-valued stored option is not modelled. With a numeric `$variable`, `isset` holds for the string offset and `unset` throws, while the model treats the entry as unset and writes nothing.
- `PhpValue.Index` reads an entry of a non-array as null. It does not model string offsets, so the character that a numeric key picks out of a string-valued option is not modelled. Array keys are strings only.
- The database query of `pathToId` and all of classes/helper/class-helper-taxonomy.php are not modelled (SQL and term lookups in the host).
- `getBytes` and `getFormattedSize` are not modelled, because they do filesystem I/O.
- `idToPath`, `isImage`, `urlFromId` and `getImageMetaData` are not modelled. They forward to host functions.
- FileHelper.BytesToSize: the rounded branch for 1024 bytes and more (`log`, `floor`, `pow`, `round` and the kb/Mb/Gb/Tb labels) is only represented as `Rounded(bytes)`, because it is floating-point arithmetic.
- FileHelper.BytesToSize: the count is an integer. A count that is `false`, a float or a string, which `getFormattedSize` may pass, is not modelled.
- Integer overflow into floats and the inexactness of IEEE floats are not modelled. Multiplying a float by 1024 is exact in the machine as well, short of overflow. The decimal parse of a fractional string is not: PHP rounds it to the nearest double, while the model keeps the exact rational.
- FileHelper.NumericFractionTruncated, PhpNumber.FractionCast, PhpNumber.NegativeFractionCast: these hold for exact rationals, not for PHP's doubles. When the parse rounds across an integer, `(int)` truncates the rounded double to a different integer. For example, PHP gives 1 for `"0.99999999999999999"` where the model gives 0. It gives 9007199254740994 for `"9007199254740993.5"` where the model gives 9007199254740993.
- classes/helper/class-helper-formatting.php and the shortcode class are not part of this model. They consist of content filters, escaping and template rendering.
- `sanitize_html_class` is a parameter of the page constructor, not a definition.
- `wp_get_attachment_image_src` is a parameter of `GetOption`, not a definition.
