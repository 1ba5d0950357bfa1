/** The i18n hooks will_paginate_translate and page_entries_info_translate, which share
    one rule: when I18n is loaded, the first candidate key is shifted off the caller's
    list and looked up, and the keys left in the list become the ordered defaults
    (replacing any :default option); otherwise the library's own lookup runs. Neither
    hook names a block, so a block given by the caller (its fallback text) reaches only
    the library's lookup, which the bare `super` forwards it to. */
module PaginateTranslate {
  import opened Wrappers
  import opened RubyValues

  const DefaultOption: string := "default"

  /** The lookup performed: I18n.t(key, **options) with the merged options and no
      block, or the library's fallback with the caller's arguments and block untouched. */
  datatype Lookup =
    | I18nLookup(key: Option<string>, options: Params)
    | LibraryLookup(keys: seq<string>, options: Params, block: Option<string>)

  /** The lookup together with the caller's key list as left behind by `shift`. */
  datatype Translation = Translation(lookup: Lookup, callerKeys: seq<string>)

  function Strs(keys: seq<string>): (vs: seq<Value>)
    ensures |vs| == |keys|
    ensures forall i :: 0 <= i < |keys| ==> vs[i] == Str(keys[i])
  {
    seq(|keys|, i requires 0 <= i < |keys| => Str(keys[i]))
  }

  /** The defaults a lookup carries, read back as key names; None when the :default
      option is missing or holds anything but a list of strings. */
  function DefaultKeys(options: Params): Option<seq<string>>
  {
    if DefaultOption in options && options[DefaultOption].Items?
       && forall i :: 0 <= i < |options[DefaultOption].items| ==> options[DefaultOption].items[i].Str?
    then Some(seq(|options[DefaultOption].items|,
                  i requires 0 <= i < |options[DefaultOption].items| && options[DefaultOption].items[i].Str? =>
                    options[DefaultOption].items[i].s))
    else None
  }

  /** The shared rule. With I18n: the key is the first element (nil for an empty list),
      the :default option is the rest in order, every other option is passed through,
      and the caller's list loses its first element; the caller's block is dropped.
      Without I18n nothing changes and the block is passed on. */
  function Translate(i18nDefined: bool, keys: seq<string>, options: Params, block: Option<string>): (t: Translation)
    ensures !i18nDefined ==> t == Translation(LibraryLookup(keys, options, block), keys)
    ensures i18nDefined ==> t.lookup.I18nLookup?
    ensures i18nDefined && |keys| == 0 ==> t.lookup.key.None? && t.callerKeys == []
    ensures i18nDefined && |keys| > 0 ==> t.lookup.key == Some(keys[0]) && t.callerKeys == keys[1..]
    ensures i18nDefined ==> t.lookup.options.Keys == options.Keys + {DefaultOption}
    ensures i18nDefined ==> forall k :: k in options && k != DefaultOption ==> t.lookup.options[k] == options[k]
    ensures i18nDefined ==> t.lookup.options[DefaultOption] == Items(Strs(t.callerKeys))
  {
    if !i18nDefined then Translation(LibraryLookup(keys, options, block), keys)
    else
      var key := if |keys| > 0 then Some(keys[0]) else None;
      var rest := if |keys| > 0 then keys[1..] else [];
      Translation(I18nLookup(key, options[DefaultOption := Items(Strs(rest))]), rest)
  }

  /** Nothing is lost or reordered: the looked-up key followed by the defaults read back
      from the options is the caller's original list. */
  lemma KeyThenDefaultsIsOriginal(keys: seq<string>, options: Params, block: Option<string>)
    requires |keys| > 0
    ensures Translate(true, keys, options, block).lookup.key == Some(keys[0])
    ensures DefaultKeys(Translate(true, keys, options, block).lookup.options) == Some(keys[1..])
    ensures [Translate(true, keys, options, block).lookup.key.value]
            + DefaultKeys(Translate(true, keys, options, block).lookup.options).value == keys
  {
    var opts := Translate(true, keys, options, block).lookup.options;
    assert opts[DefaultOption] == Items(Strs(keys[1..]));
    assert DefaultKeys(opts).value == keys[1..];
    assert [keys[0]] + keys[1..] == keys;
  }
}
