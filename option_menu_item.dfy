/**
 * The option accessors of the abstract admin option page (`AbstractOptionMenuItem`):
 * every page keeps its settings as one array stored in the host's options table
 * under the page's option key; `getOption`, `setOption` and `deleteOption` read
 * and update one entry of that array.
 *
 * The host's `get_option`/`update_option` become the class `OptionsTable`. The
 * instance the static accessors resolve (the one passed in, or else the one the
 * theme registered for the calling class) is a nullable parameter: `null` means
 * that none resolved.
 */
module OptionMenu {
  import opened Wrappers
  import opened PhpValue

  /** The host's persisted options: option name to stored value. */
  class OptionsTable {
    var rows: map<string, Value>

    constructor (rows: map<string, Value>)
      ensures this.rows == rows
    {
      this.rows := rows;
    }

    /** `get_option($name)`: the stored value, or `false` when the option does not exist. */
    function Get(name: string): (v: Value)
      reads this
      ensures name in rows ==> v == rows[name]
      ensures name !in rows ==> v == Bool(false)
    {
      if name in rows then rows[name] else Bool(false)
    }

    /**
     * `update_option($name, $value)`: the option holds `value` afterwards and no
     * other option changes. The page's `pre_update_option_` filter hands the new
     * value back unchanged, so what is written is `value` itself.
     */
    method Update(name: string, value: Value)
      modifies this
      ensures rows == old(rows)[name := value]
    {
      rows := rows[name := value];
    }
  }

  /** An admin option page: the fields its constructor assigns. */
  class OptionMenuItem {
    const title: string
    const optionKey: string
    const optionGroup: string
    const slug: string
    const callback: string

    /**
     * `new AbstractOptionMenuItem($title, $optionKey, $slug, $callback)`. The host's
     * `sanitize_html_class` is the parameter `sanitizeHtmlClass`.
     */
    constructor (title: string, optionKey: string, slug: string, callback: string, sanitizeHtmlClass: string -> string)
      ensures this.title == title && this.optionKey == optionKey
      ensures this.slug == slug && this.callback == callback
      ensures optionGroup == GroupName(sanitizeHtmlClass(optionKey))
    {
      this.title := title;
      this.optionKey := optionKey;
      this.optionGroup := GroupName(sanitizeHtmlClass(optionKey));
      this.slug := slug;
      this.callback := callback;
    }

    /**
     * `getOption($variable, $default, $imageSize, $optionInstance)`: null when no
     * instance resolves, otherwise the entry resolved from the instance's stored array.
     */
    static function GetOption(table: OptionsTable, variable: string, default: Value, imageSize: Value,
                              instance: OptionMenuItem?, imageSrc: (int, Value) -> Option<Value>): (r: Value)
      reads table
      ensures instance == null ==> r == Null
      ensures instance != null ==> r == ResolveOption(table.Get(instance.optionKey), variable, default, imageSize, imageSrc)
    {
      if instance == null then Null
      else ResolveOption(table.Get(instance.optionKey), variable, default, imageSize, imageSrc)
    }

    /**
     * `setOption($variable, $value, $optionInstance)`: stores `value` under `variable`
     * in the instance's array and writes the array back; nothing happens without an
     * instance, or when the stored option cannot be indexed as an array.
     */
    static method SetOption(table: OptionsTable, variable: string, value: Value, instance: OptionMenuItem?)
      modifies table
      ensures instance == null ==> table.rows == old(table.rows)
      ensures instance != null ==>
        table.rows == match Assigned(old(table.Get(instance.optionKey)), variable, value)
                      case None => old(table.rows)
                      case Some(w) => old(table.rows)[instance.optionKey := w]
      ensures forall name :: name in old(table.rows) && (instance == null || name != instance.optionKey) ==>
        name in table.rows && table.rows[name] == old(table.rows)[name]
    {
      if instance != null {
        var options := table.Get(instance.optionKey);
        var updated := Assigned(options, variable, value);
        if updated.Some? {
          table.Update(instance.optionKey, updated.value);
        }
      }
    }

    /**
     * `deleteOption($variable, $optionInstance)`: removes `variable` from the
     * instance's array when it is set there and writes the array back; otherwise
     * performs no write.
     */
    static method DeleteOption(table: OptionsTable, variable: string, instance: OptionMenuItem?)
      modifies table
      ensures instance == null ==> table.rows == old(table.rows)
      ensures instance != null && !IsSetAt(old(table.Get(instance.optionKey)), variable) ==> table.rows == old(table.rows)
      ensures instance != null && IsSetAt(old(table.Get(instance.optionKey)), variable) ==>
        table.rows == old(table.rows)[instance.optionKey := Arr(old(table.Get(instance.optionKey)).entries - {variable})]
      ensures forall name :: name in old(table.rows) && (instance == null || name != instance.optionKey) ==>
        name in table.rows && table.rows[name] == old(table.rows)[name]
    {
      if instance != null {
        var options := table.Get(instance.optionKey);
        var remaining := Unset(options, variable);
        if remaining.Some? {
          table.Update(instance.optionKey, remaining.value);
        }
      }
    }
  }

  /** The settings group of a page: its sanitised option key followed by "-group". */
  function GroupName(sanitizedKey: string): (r: string)
    ensures |r| == |sanitizedKey| + 6
    ensures r[..|sanitizedKey|] == sanitizedKey && r[|sanitizedKey|..] == "-group"
  {
    sanitizedKey + "-group"
  }

  /** Pages whose option keys sanitise differently get different settings groups. */
  lemma GroupNameInjective(a: string, b: string)
    requires GroupName(a) == GroupName(b)
    ensures a == b
  {
    assert |a| == |b|;
    assert a == GroupName(a)[..|a|];
  }

  /** The value chosen before attachment unwrapping: the stored entry, else a non-empty default, else ''. */
  function Chosen(stored: Value, variable: string, default: Value): Value {
    var value := if Truthy(stored) && Truthy(Index(stored, variable)) then Index(stored, variable) else Str("");
    if Truthy(default) && IsEmpty(value) then default else value
  }

  /** An attachment-shaped value: an array with an `attachment` entry. */
  predicate IsAttachment(v: Value) {
    v.Arr? && "attachment" in v.entries
  }

  /**
   * Attachment unwrapping: with a truthy image size and a successful image lookup,
   * the image URL; otherwise the attachment's non-empty `url`, or null.
   */
  function Unwrapped(v: Value, imageSize: Value, imageSrc: (int, Value) -> Option<Value>): Value {
    if IsAttachment(v) then
      var attachment := v.entries["attachment"];
      var attachmentId := ToInt(Index(attachment, "id"));
      if Truthy(imageSize) && imageSrc(attachmentId, imageSize).Some? then imageSrc(attachmentId, imageSize).value
      else if Truthy(Index(attachment, "url")) then Index(attachment, "url")
      else Null
    else v
  }

  /** What `getOption` returns for a resolved instance whose option is `stored`. */
  function ResolveOption(stored: Value, variable: string, default: Value, imageSize: Value,
                         imageSrc: (int, Value) -> Option<Value>): Value {
    Unwrapped(Chosen(stored, variable, default), imageSize, imageSrc)
  }

  /**
   * `$options[$variable] = $value` on the fetched option: the array with the entry
   * set; a missing option (false) or null becomes a new array. None: PHP cannot
   * index the stored scalar as an array, so nothing is written.
   */
  function Assigned(stored: Value, variable: string, value: Value): (r: Option<Value>)
    ensures r.Some? ==> r.value.Arr? && variable in r.value.entries && r.value.entries[variable] == value
  {
    match stored
    case Arr(m) => Some(Arr(m[variable := value]))
    case Null => Some(Arr(map[variable := value]))
    case Bool(b) => if b then None else Some(Arr(map[variable := value]))
    case _ => None
  }

  /** `unset($options[$variable])` guarded by `isset`: the array without the entry, or None (no write). */
  function Unset(stored: Value, variable: string): (r: Option<Value>)
    ensures r.Some? ==> stored.Arr? && variable in stored.entries && r.value.Arr? && variable !in r.value.entries
    ensures r.Some? ==> r.value.entries.Keys + {variable} == stored.entries.Keys
  {
    if IsSetAt(stored, variable) then Some(Arr(stored.entries - {variable})) else None
  }

  /* ---------------------------------------------------------------------------
   * Properties of the accessors
   * ------------------------------------------------------------------------- */

  /**
   * The resolution rule in one piece: a non-empty stored entry wins, else a
   * non-empty default, else ''; the winner is then unwrapped if it is an attachment.
   */
  lemma ResolveCases(stored: Value, variable: string, default: Value, imageSize: Value,
                     imageSrc: (int, Value) -> Option<Value>)
    ensures ResolveOption(stored, variable, default, imageSize, imageSrc) ==
      Unwrapped(if Truthy(Index(stored, variable)) then Index(stored, variable)
                else if Truthy(default) then default
                else Str(""), imageSize, imageSrc)
  {
    if Truthy(Index(stored, variable)) {
      TruthyEntryTruthyContainer(stored, variable);
    }
  }

  /** A missing or empty entry with no usable default reads as ''. */
  lemma EmptyReadsAsEmptyString(stored: Value, variable: string, default: Value, imageSize: Value,
                                imageSrc: (int, Value) -> Option<Value>)
    requires IsEmpty(Index(stored, variable)) && IsEmpty(default)
    ensures ResolveOption(stored, variable, default, imageSize, imageSrc) == Str("")
  {
    ResolveCases(stored, variable, default, imageSize, imageSrc);
  }

  /**
   * The default is used only when the stored entry is empty and the default is
   * not: a non-empty entry is kept whatever the default, an empty default never
   * replaces anything.
   */
  lemma DefaultOnlyWhenEmpty(stored: Value, variable: string, default: Value)
    ensures Truthy(Index(stored, variable)) ==> Chosen(stored, variable, default) == Index(stored, variable)
    ensures IsEmpty(Index(stored, variable)) && Truthy(default) ==> Chosen(stored, variable, default) == default
    ensures IsEmpty(Index(stored, variable)) && IsEmpty(default) ==> Chosen(stored, variable, default) == Str("")
  {
    if Truthy(Index(stored, variable)) {
      TruthyEntryTruthyContainer(stored, variable);
    }
  }

  /** Without an image size, an attachment resolves to its non-empty URL, else null. */
  lemma AttachmentWithoutImageSize(v: Value, imageSize: Value, imageSrc: (int, Value) -> Option<Value>)
    requires IsAttachment(v) && IsEmpty(imageSize)
    ensures var url := Index(v.entries["attachment"], "url");
      Unwrapped(v, imageSize, imageSrc) == (if Truthy(url) then url else Null)
  {
  }

  /** When the image lookup fails, an attachment falls back to its URL just as without an image size. */
  lemma AttachmentLookupFails(v: Value, imageSize: Value, imageSrc: (int, Value) -> Option<Value>)
    requires IsAttachment(v)
    requires imageSrc(ToInt(Index(v.entries["attachment"], "id")), imageSize).None?
    ensures Unwrapped(v, imageSize, imageSrc) == Unwrapped(v, Null, imageSrc)
  {
  }

  /** Setting an entry changes that entry only. */
  lemma AssignedKeepsOthers(stored: Value, variable: string, value: Value, other: string)
    requires Assigned(stored, variable, value).Some?
    requires other != variable
    ensures Index(Assigned(stored, variable, value).value, other) == Index(stored, other)
    ensures Index(Assigned(stored, variable, value).value, variable) == value
  {
  }

  /** `$options[$variable] = ...` succeeds exactly on an array, a missing option (false) or null. */
  lemma AssignedWritable(stored: Value, variable: string, value: Value)
    ensures Assigned(stored, variable, value).Some? <==> stored.Arr? || stored == Null || stored == Bool(false)
  {
  }

  /** Round trip: a non-empty, non-attachment value that was set is what is read back. */
  lemma SetThenGet(stored: Value, variable: string, value: Value, default: Value, imageSize: Value,
                   imageSrc: (int, Value) -> Option<Value>)
    requires Assigned(stored, variable, value).Some?
    requires Truthy(value) && !IsAttachment(value)
    ensures ResolveOption(Assigned(stored, variable, value).value, variable, default, imageSize, imageSrc) == value
  {
    var w := Assigned(stored, variable, value).value;
    assert Index(w, variable) == value;
    ResolveCases(w, variable, default, imageSize, imageSrc);
  }

  /** `deleteOption` writes exactly when the entry is set. */
  lemma UnsetWritesIffSet(stored: Value, variable: string)
    ensures Unset(stored, variable).Some? <==> IsSetAt(stored, variable)
  {
  }

  /** Deleting an entry removes that entry only. */
  lemma UnsetKeepsOthers(stored: Value, variable: string, other: string)
    requires Unset(stored, variable).Some?
    ensures Index(Unset(stored, variable).value, variable) == Null
    ensures other != variable ==> Index(Unset(stored, variable).value, other) == Index(stored, other)
  {
  }

  /** After a delete, reading the entry gives the default's resolution, or ''. */
  lemma DeleteThenGet(stored: Value, variable: string, default: Value, imageSize: Value,
                      imageSrc: (int, Value) -> Option<Value>)
    requires Unset(stored, variable).Some?
    ensures ResolveOption(Unset(stored, variable).value, variable, default, imageSize, imageSrc) ==
      Unwrapped(if Truthy(default) then default else Str(""), imageSize, imageSrc)
  {
    var w := Unset(stored, variable).value;
    assert Index(w, variable) == Null;
    ResolveCases(w, variable, default, imageSize, imageSrc);
  }

  /** Deleting an entry that was just added to an array gives the array back. */
  lemma DeleteUndoesSet(m: map<string, Value>, variable: string, value: Value)
    requires variable !in m && value != Null
    ensures Assigned(Arr(m), variable, value).Some?
    ensures Unset(Assigned(Arr(m), variable, value).value, variable) == Some(Arr(m))
  {
    assert m[variable := value] - {variable} == m;
  }

  /** Setting an entry to null leaves it unset, so a later delete performs no write. */
  lemma NullEntryIsNotDeleted(stored: Value, variable: string)
    requires Assigned(stored, variable, Null).Some?
    ensures Unset(Assigned(stored, variable, Null).value, variable) == None
  {
  }
}
