# svgo wrapper of the X6 SVG-to-shape site, in Dafny

The X6 "svg to shape" site runs uploaded SVG through svgo. The wrapper in
`sites/x6-svg-to-shape/src/pages/components/svgo.js` adds four pieces of
its own around svgo, and this project models all four:

- **`optimizePluginsArray`** (`plugin_groups.dfy`). It groups the flat
  plugin list into maximal runs of adjacent plugins with the same `type`.
  - `Groups` is the reduce as a left fold of one step.
  - `OptimizePluginsArray` is the loop that pushes onto the last group or
    opens a new one.
  - Lemmas prove that the result is the unique partition of the list into
    maximal runs of equal type.
- **`cloneParsedSvg`** (`svg_clone.dfy`). It deep-copies the parsed
  document's object graph, which shares objects and has cycles.
  - The JavaScript heap is an explicit `map<Address, Obj>`.
  - The `Cloner` class holds the heap, the allocator and the `clones` memo.
    Its methods follow `clone`, `cloneKeys` and the Map and Set loops
    branch by branch.
  - Each object is recorded in the memo before any of its children is
    visited.
  - An object of any other constructor throws `'unexpected type'`.
  - `CloneParsedSvg` proves the result is a one-to-one deep copy. It also
    proves the clone fails exactly when an object of an unsupported kind is
    reachable.
- **`getDimensions`** (`dimensions.dfy`, `view_box.dfy`). The first
  top-level `svg` element decides the size.
  - `width` and `height` are used when both are present.
  - Otherwise the size is the third and fourth tokens of `viewBox`.
  - Otherwise the result is `{}`.
  - The `viewBox` tokenizer models `String.prototype.split` with
    `/(?:,\s*|\s+)/` character by character, using ECMAScript's full `\s`
    set.
- **The settings loops of `optimize`** (`plugins.dfy`).
  - `PluginTable` is the `pluginsData` table.
  - `Activate` sets `active` only for requested names that are in the
    table.
  - `SetFloatPrecision` copies the precision into every plugin whose
    `params` has a `floatPrecision` key. `cleanupNumericValues` gets 1
    instead of 0.
  - Each method is proved against a map-valued specification function.
  - The settings change no plugin's `type`, so `optimizePluginsArray` groups
    the plugins the same way before and after them.

`wrappers.dfy` holds the `Option` and `Result` types.

## Model

| member | source | states |
|---|---|---|
| PluginGroups.Groups | sites/x6-svg-to-shape/src/pages/components/svgo.js:114-127 | every group is non-empty, there are no more groups than plugins, and the result is empty exactly when the input is |
| PluginGroups.Step | sites/x6-svg-to-shape/src/pages/components/svgo.js:117-125 | one reduce step pushes onto the last group exactly when there is one and its first plugin has the same `type` (earlier groups are kept and the last group becomes the old last group plus the plugin), otherwise it appends `[plugin]` as a new group; either way the plugin ends up last and every group stays non-empty |
| PluginGroups.StepKeepsPartition | sites/x6-svg-to-shape/src/pages/components/svgo.js:117-125 | a step turns the maximal-run partition of a list into the maximal-run partition of that list with the plugin appended |
| PluginGroups.GroupsPartition | sites/x6-svg-to-shape/src/pages/components/svgo.js:114-127 | concatenating the groups gives back the input in order, every group holds plugins of one `type`, and adjacent groups differ in `type` |
| PluginGroups.RunPartitionUnique | sites/x6-svg-to-shape/src/pages/components/svgo.js:118-124 | any grouping with those three properties is exactly the one the reduce builds, so the runs are maximal and unique |
| PluginGroups.GroupsFollowKinds | sites/x6-svg-to-shape/src/pages/components/svgo.js:114-127 | the grouping depends only on the plugins' `type`s: two lists with the same `type` at every position give groups of the same sizes and types |
| PluginGroups.PrefixesFollowKinds | sites/x6-svg-to-shape/src/pages/components/svgo.js:114-127 | the same for the first `n` plugins of each list, at every `n` |
| PluginGroups.PrefixStepFollowsKinds | sites/x6-svg-to-shape/src/pages/components/svgo.js:117-125 | one more reduce step on plugins of the same `type` keeps the two groupings the same shape |
| PluginGroups.OptimizePluginsArray | sites/x6-svg-to-shape/src/pages/components/svgo.js:114-127 | the loop of pushes onto the last group or a new group returns the maximal-run partition of its input |
| ViewBox.IsWhiteSpace | sites/x6-svg-to-shape/src/pages/components/svgo.js:144 | the characters `\s` matches: ECMAScript's white space and line terminators |
| ViewBox.WhiteSpaceRun | sites/x6-svg-to-shape/src/pages/components/svgo.js:144 | the greedy `\s*` consumes a prefix of white space and stops before a non-white-space character |
| ViewBox.SeparatorLength | sites/x6-svg-to-shape/src/pages/components/svgo.js:144 | a match starting at a separator character is non-empty and made of separator characters; it ends where the white-space run after its first character ends, so `,\s*` takes a comma and all the white space after it, and `\s+` all the white space |
| ViewBox.FirstSeparator | sites/x6-svg-to-shape/src/pages/components/svgo.js:144 | the first match starts at the first comma or white-space character, or there is none |
| ViewBox.Split | sites/x6-svg-to-shape/src/pages/components/svgo.js:144 | `split` yields at least one token and no token contains a comma or white space |
| ViewBox.SplitDropsOnlySeparators | sites/x6-svg-to-shape/src/pages/components/svgo.js:144 | the tokens concatenated are the value with exactly its commas and white space removed |
| ViewBox.SplitJoin | sites/x6-svg-to-shape/src/pages/components/svgo.js:144 | non-empty tokens joined by one delimiter (a comma with optional white space after it, or a run of white space) split back into the same tokens |
| ViewBox.SplitSeparatorFree | sites/x6-svg-to-shape/src/pages/components/svgo.js:144 | a value without commas or white space is a single token |
| ViewBox.SplitAfterToken | sites/x6-svg-to-shape/src/pages/components/svgo.js:144 | a token, one delimiter and a rest that starts with a token character split into that token followed by the split of the rest |
| ViewBox.LeadingSeparator | sites/x6-svg-to-shape/src/pages/components/svgo.js:144 | a value that starts with a comma or white space yields an empty first token, shifting every number one place right |
| ViewBox.SpaceBeforeComma | sites/x6-svg-to-shape/src/pages/components/svgo.js:144 | white space before a comma is a match of its own, so `a ,b` (with any white space before the comma) splits into `a`, an empty token and `b` |
| ViewBox.SplitAfterWhiteSpace | sites/x6-svg-to-shape/src/pages/components/svgo.js:144 | a token, a white-space run and a rest that does not start with white space split into that token followed by the split of the rest, even when the rest starts with a comma |
| ViewBox.LeadingComma | sites/x6-svg-to-shape/src/pages/components/svgo.js:144 | a comma followed by a token splits into an empty token and that token |
| Dimensions.IsSvg | sites/x6-svg-to-shape/src/pages/components/svgo.js:130 | `isElem('svg')`: the node is an element named `svg` |
| Dimensions.FirstSvg | sites/x6-svg-to-shape/src/pages/components/svgo.js:130 | the result is absent exactly when no top-level node is an `svg` element, and otherwise holds the attributes of the first one |
| Dimensions.TokenAt | sites/x6-svg-to-shape/src/pages/components/svgo.js:147-148 | a token index past the end gives `undefined`, and any other index gives the token at that index |
| Dimensions.SizeFromAttributes | sites/x6-svg-to-shape/src/pages/components/svgo.js:136-152 | a size is produced exactly when both `width` and `height` are present or `viewBox` is |
| Dimensions.GetDimensions | sites/x6-svg-to-shape/src/pages/components/svgo.js:129-153 | no `svg` element gives `{}`, and a size is produced exactly when the first `svg` element has usable attributes |
| Dimensions.FirstSvgDecides | sites/x6-svg-to-shape/src/pages/components/svgo.js:130-132 | non-`svg` nodes before the first `svg` element and every node after it do not affect the size |
| Dimensions.WidthAndHeightWin | sites/x6-svg-to-shape/src/pages/components/svgo.js:136-141 | with both `width` and `height` present they are the size and `viewBox` is ignored |
| Dimensions.LoneDimensionIgnored | sites/x6-svg-to-shape/src/pages/components/svgo.js:136-150 | a `width` or a `height` on its own does not affect the size |
| Dimensions.ViewBoxGivesSize | sites/x6-svg-to-shape/src/pages/components/svgo.js:143-149 | a `viewBox` of four numbers joined by one delimiter gives its third and fourth numbers as width and height |
| Dimensions.ShortViewBox | sites/x6-svg-to-shape/src/pages/components/svgo.js:144-149 | a `viewBox` with fewer than four tokens gives no height, and one with fewer than three gives no width |
| PluginSettings.ValuesInOrder | sites/x6-svg-to-shape/src/pages/components/svgo.js:238 | `Object.values(pluginsData)` lists the table's plugins in key order: one value per name, the value stored under that name |
| PluginSettings.Activated | sites/x6-svg-to-shape/src/pages/components/svgo.js:216-220 | requested names in the table take the requested `active` flag, other plugins are unchanged, unknown names add nothing, and type and params never change |
| PluginSettings.PluginTable.Activate | sites/x6-svg-to-shape/src/pages/components/svgo.js:216-220 | the activation loop leaves the table equal to `Activated` of the old table and keeps the key order |
| PluginSettings.PrecisionFor | sites/x6-svg-to-shape/src/pages/components/svgo.js:227-233 | every plugin gets the requested precision, except that `cleanupNumericValues` gets 1 when 0 is requested |
| PluginSettings.WithPrecision | sites/x6-svg-to-shape/src/pages/components/svgo.js:226-234 | a plugin without a `floatPrecision` param is unchanged; otherwise only that param changes, to `PrecisionFor`, and type and `active` are kept |
| PluginSettings.Precised | sites/x6-svg-to-shape/src/pages/components/svgo.js:225-235 | the precision loop keeps every name and treats each plugin by `WithPrecision` |
| PluginSettings.PluginTable.SetPluginPrecision | sites/x6-svg-to-shape/src/pages/components/svgo.js:226-234 | one round of the precision loop changes only the named plugin, to `WithPrecision` of it, and keeps the key order |
| PluginSettings.PluginTable.SetFloatPrecision | sites/x6-svg-to-shape/src/pages/components/svgo.js:222-235 | the loop over the plugins in key order leaves the table equal to `Precised` of the old table |
| PluginSettings.PluginTable.ApplySettings | sites/x6-svg-to-shape/src/pages/components/svgo.js:215-235 | activation, then precision: the new table is `Precised(Activated(old table, requested flags), precision)`, and the groups `optimizePluginsArray` builds from `Object.values` have the same sizes and types as before |
| PluginSettings.SettingsKeepGrouping | sites/x6-svg-to-shape/src/pages/components/svgo.js:215-238 | the settings change `active` flags and `floatPrecision` values but never a `type`, so the grouping of `Object.values(pluginsData)` keeps its shape |
| PluginSettings.PluginTable.constructor | sites/x6-svg-to-shape/src/pages/components/svgo.js:162-213 | `pluginsData` holds each plugin once, under a name listed once in key order |
| SvgClone.Put | sites/x6-svg-to-shape/src/pages/components/svgo.js:57 | assigning a new key appends it; assigning an existing key keeps every key in its place and gives its first occurrence the new value |
| SvgClone.PutDistinct | sites/x6-svg-to-shape/src/pages/components/svgo.js:57 | with distinct keys, as in every object and `Map`, assigning an existing key changes exactly the pair under that key |
| SvgClone.Fresh | sites/x6-svg-to-shape/src/pages/components/svgo.js:74-98 | the object a constructor call allocates: the given kind, the given parent link, and no properties, entries or members (for `CSSClassList` and `CSSStyleDeclaration` this is a simplification, see "Left out") |
| SvgClone.Add | sites/x6-svg-to-shape/src/pages/components/svgo.js:102 | `Set.add` appends a value that is not yet present and ignores one that is |
| SvgClone.CorrespondsInjective | sites/x6-svg-to-shape/src/pages/components/svgo.js:67-69 | under a one-to-one memo two values have equal copies exactly when they are equal: a shared object stays shared in the copy and no new sharing appears |
| SvgClone.CopyCoversPaths | sites/x6-svg-to-shape/src/pages/components/svgo.js:62-109 | a finished deep copy contains every object reachable from a copied object, and none of them has an unsupported kind |
| SvgClone.PathPrepend | sites/x6-svg-to-shape/src/pages/components/svgo.js:77-103 | an unsupported object reached from a child is reached from the parent object too |
| SvgClone.Cloner.constructor | sites/x6-svg-to-shape/src/pages/components/svgo.js:53 | the memo starts empty, the heap is the document and the allocator starts above it |
| SvgClone.Cloner.Clone | sites/x6-svg-to-shape/src/pages/components/svgo.js:62-109 | a non-object or null comes back unchanged; a memoised object comes back as its recorded clone with nothing changed; success gives the copy under the memo, failure is `'unexpected type'` with an unsupported object reachable; recorded entries are never changed |
| SvgClone.Cloner.CloneObject | sites/x6-svg-to-shape/src/pages/components/svgo.js:71-108 | a fresh object of the same kind is allocated and recorded before it is filled, and on success the memo maps the original to it |
| SvgClone.Cloner.Fill | sites/x6-svg-to-shape/src/pages/components/svgo.js:73-106 | the branch chosen by kind fills only the new object and leaves it a finished copy of the original |
| SvgClone.Cloner.CloneElement | sites/x6-svg-to-shape/src/pages/components/svgo.js:73-80 | the parent link is cloned first, then the enumerable properties, giving a finished element copy |
| SvgClone.Cloner.CloneKeys | sites/x6-svg-to-shape/src/pages/components/svgo.js:55-60 | every own property of the original is copied in key order under the memo, and only the target's properties change |
| SvgClone.Cloner.CloneProperty | sites/x6-svg-to-shape/src/pages/components/svgo.js:56-58 | one more property is copied, and earlier copies stay correct as the memo grows |
| SvgClone.Cloner.CloneEntries | sites/x6-svg-to-shape/src/pages/components/svgo.js:90-96 | every Map entry is copied in order, key and value each through the memo |
| SvgClone.Cloner.CloneEntry | sites/x6-svg-to-shape/src/pages/components/svgo.js:94-96 | one more entry is copied, its key and its value each through the memo, and earlier entries stay correct as the memo grows |
| SvgClone.Cloner.StoreEntry | sites/x6-svg-to-shape/src/pages/components/svgo.js:95 | `objClone.set` with both halves copied: only the target's entries change, by `Put`, and the copied entries now include this one |
| SvgClone.Cloner.CloneMembers | sites/x6-svg-to-shape/src/pages/components/svgo.js:97-103 | every Set member is copied in order through the memo |
| SvgClone.Cloner.CloneMember | sites/x6-svg-to-shape/src/pages/components/svgo.js:101-103 | one more member is copied |
| SvgClone.CloneParsedSvg | sites/x6-svg-to-shape/src/pages/components/svgo.js:52-112 | success means the document is unchanged and every memo entry is a one-to-one copy in fresh addresses, with the result the copy of `svg`; it fails, always with `'unexpected type'`, exactly when an unsupported object is reachable from `svg` |

## Left out

- `svg2js`, `js2svg`, `applyPlugins` and the svgo plugin modules are third-party code (lines 1-50, 156-160, 237-248). The model starts from the parsed document and the plugin table.
- The parse-error throw (lines 158-160) belongs to `svg2js`, which is not part of this model.
- `parseFloat` and `Number` (lines 138-139, 147-148, 223) are floating-point conversions. The size keeps the selected strings, with `None` for a missing token, and the precision is an integer.
- `Dimensions.GetDimensions`: the result holds the raw attribute strings, not the numbers `parseFloat` makes of them. For example, `"10px"` and `"abc"` are not turned into 10 and NaN.
- The element queries `isElem`, `hasAttr` and `attr` are svgo's JSAPI methods. They become an element name and an attribute map.
- The constructor checks of `clone` compare JavaScript constructor identity. They become a kind tag on each object.
- Object identity becomes an address in an explicit heap map. The first free address is a parameter rather than an allocator.
- Prototype chains, property descriptors and getters are not modelled.
  - Each object carries only its own enumerable keys, in `Object.keys` order.
  - An element's `parentNode` is a separate, non-enumerable link.
- `SvgClone.Fresh`: the `CSSClassList` and `CSSStyleDeclaration` clones start with no properties, like a plain object. Their constructors, called on line 87, belong to svgo and are not part of this model. They assign fields of their own first (`parentNode` among them), and `cloneKeys` then overwrites those fields. The two differ only when the original lacks a field its constructor assigns: the real clone keeps that field, and the key order can differ.
- `PluginSettings.PluginTable.SetPluginPrecision`: the identity test `plugin === pluginsData.cleanupNumericValues` is modelled as a comparison of table names. The two differ only if one plugin module sat under two names, which the table in lines 162-213 never does.
- `pluginsData[name]` truthiness (line 217) becomes key membership of the table's own names. Inherited names such as `toString`, `constructor` or `__proto__` are truthy too, and line 218 then writes `active` onto the inherited object (for `__proto__`, onto `Object.prototype`). The model ignores those names, so this effect is dropped.
- The values of `pluginsData` are the imported plugin modules themselves, and lines 218, 230 and 232 change them in place. Their `active` and `floatPrecision` therefore carry over from the previous `optimize` call. `PluginTable` holds the modules' state at the start of a call, not svgo's defaults, and it is an input of the model.
- `settings.pretty` only reaches `js2svg` and is not modelled, and `size` and `data` are assembled from third-party results (lines 242-248). The wrapper's return object is not modelled.
- `configs/karma-config.js` is test-runner configuration with no behaviour of the wrapper and is not part of this model.
