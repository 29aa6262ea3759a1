# Contact property codec of the AgileCRM wrapper

The AgileCRM Ruby client represents a contact in two tiers:

- A fixed set of **control fields** stored at the top level: `id`, `type`, `tags`, `lead_score`, `star_value` and `contact_company_id`.
- An ordered list of **property entries** `{type, name, value, subtype?}`. An entry has type `SYSTEM` when its name is one of `first_name`, `last_name`, `company`, `title`, `email`, `address` and `phone`, and type `CUSTOM` otherwise.

This project models the code that converts a flat update such as `{first_name: "X", phone: {value: "...", subtype: "mobile"}}` into that shape. It also models how such an update is merged into a contact's existing list, and how entries are read back by name or by a field pattern. Beside that it models the class-level helpers that do no transport work:

- the e-mail normalisation of `search_by_email`
- the result shaping of `all`, `search`, `find`, `search_by_email`, `create` and `update_score`, applied to a response (status and body) that is a parameter

Modules:

- `Json` (`json.dfy`): decoded JSON values (`Nil`, `Bool`, `Int`, `Str`, `Arr`, `Hash`), hash reads where a missing key gives nil, and an order-preserving subsequence predicate.
- `PropertyCodec` (`property_codec.dfy`): the two constant name lists; `parse_property`; `parse_contact_fields`, as a loop proved against the specification function `Encode`; `merge_properties`, as a loop with an inner `delete_if` loop proved against `Merged`; and `select_properties` / `get_property` over a list, as `Selected` and `Lookup`.
- `Contacts` (`contact.dfy`): the `Contact` object as a class. Its fields are the top-level fields and the `properties` list. Its methods are `update_attributes`, which changes the object in place, `select_properties` and `get_property`.
- `ContactResponses` (`contact_responses.dfy`): `flatten.compact.uniq`, and the result shaping of the class methods.

Ruby hash keys are modelled after `to_s`, so `:phone` and `"phone"` are the same key. Option lists may repeat a key. A property is a `map<string, Value>`.

Points of the code's behaviour that a quick reading of it can miss:

- **Merge consumes every matching incoming entry.** A first-match-only reading of the merge differs from `delete_if`, which removes every incoming entry whose (name, subtype) matches. Each such deletion assigns that entry's value, so the existing entry ends up with the value of the last one.
- **A later existing duplicate is not updated.** A second existing entry with the same key finds no incoming entry left to match, so it keeps its value. `PropertyCodec.MergeWithDuplicates` shows this.
- **Merging twice is not always idempotent.** It is when the incoming entries have distinct keys and each carries a `value` key (`PropertyCodec.MergeIdempotent`). That condition is sufficient, not necessary. Idempotence can fail when two incoming entries share a key that no existing entry has: both are appended the first time. On the second merge the first of them matches both, so it takes the second one's value; both entries stay. `PropertyCodec.MergeTwiceWithRepeatedKey` is such an input.
- **`search_by_email` counts entries before dropping nils.** It tests the body's size before removing the nils. A body of two entries, one of them null, therefore gives a list holding one contact (`ContactResponses.SearchByEmailListOfOne`).
- **A contact is built with `new`.** Hashie::Mash takes the pairs of a hash; nil and false give an empty contact; any other value raises. This is `ContactResponses.NewContact`. So the body `{}` of `all` or `search` gives no contacts, a `search_by_email` body `{}` or `[false]` gives nil, and a body entry that is a string or a number raises.

Proof helpers carry no row below: `Json.SubsequenceOfSelf`, `Json.SubsequenceMayDropLast`, `Json.SubsequenceWeaken`, `PropertyCodec.KeysOf`, `PropertyCodec.KeysOfSnoc`, `PropertyCodec.KeysOfCons`, `PropertyCodec.LastWith`, `PropertyCodec.Stamped`, `PropertyCodec.FirstOfKey`, `PropertyCodec.DistinctKeys`, `PropertyCodec.CarryValues`, `PropertyCodec.KeySelector`, `PropertyCodec.DropNothing`, `PropertyCodec.DropDrop`, `PropertyCodec.DropKeys`, `PropertyCodec.LastValueDrop`, `PropertyCodec.DropDistinct`, `PropertyCodec.DropAll`, `PropertyCodec.KeysOfSameKeys`, `PropertyCodec.IdempotentOnExisting`, `PropertyCodec.IdempotentOnAppended`, `Contacts.Contact.Valid`, the phone fixtures `Contacts.HomePhone`, `Contacts.MobilePhone` and `Contacts.MobileSelector`, `ContactResponses.Occurs` (the reference predicate of `FlattenLeaves`), `ContactResponses.FlattenScalar`, `ContactResponses.OccursCons`, `ContactResponses.FirstIndexInPrefix`, `ContactResponses.FirstIndexOfNew`, `ContactResponses.CompactLastOld`, `ContactResponses.CompactLastNew`, `ContactResponses.CompactOrderOld`, `ContactResponses.CompactOrderNew`, `ContactResponses.CompactNewContacts` and the stages of `ContactResponses.NormalizeNestedEmails`. They are facts about sequences and the model's own definitions.

## Model

| member | source | states |
|---|---|---|
| PropertyCodec.IsSystemProperty | lib/agilecrm-wrapper/contact.rb:101-103 | definition: a key is a system property when its `to_s` is one of the seven system names; its consequences are in ParseProperty and FieldTiersDisjoint |
| PropertyCodec.IsContactField | lib/agilecrm-wrapper/contact.rb:105-107 | definition: a key is a control field when its `to_s` is one of the six control names; its consequences are in Encode and EncodeControlKeys |
| PropertyCodec.FieldTiersDisjoint | lib/agilecrm-wrapper/contact.rb:6-7 | no control field name is a system property name, and `properties` is not a control field |
| PropertyCodec.ParseProperty | lib/agilecrm-wrapper/contact.rb:92-103 | the entry is named after the key; its type is SYSTEM exactly when the key is a system property and CUSTOM otherwise; a scalar gives exactly the keys type, name and value; a hash keeps every caller field except type and name and adds those two |
| PropertyCodec.Encode | lib/agilecrm-wrapper/contact.rb:66-76 | the payload has at most one entry per option, and no entry is named after a control field |
| PropertyCodec.ParseContactFields | lib/agilecrm-wrapper/contact.rb:66-76 | the loop over the options builds exactly the payload `Encode` describes |
| PropertyCodec.EncodeControl | lib/agilecrm-wrapper/contact.rb:66-76 | a key reaches the top level exactly when it is a control field among the options; its value is that of the last option with that key |
| PropertyCodec.EncodeControlDomain | lib/agilecrm-wrapper/contact.rb:68-70 | a key reaches the top level exactly when it is a control field that some option carries |
| PropertyCodec.EncodeControlValue | lib/agilecrm-wrapper/contact.rb:68-70 | a top-level value is that of the last option with its key |
| PropertyCodec.EncodeEntries | lib/agilecrm-wrapper/contact.rb:66-76 | every non-control option gives exactly one entry, built by ParseProperty, and the entries follow the order of the options |
| PropertyCodec.PropertyPositions | lib/agilecrm-wrapper/contact.rb:68-73 | the positions of the non-control options: all of them, each once, in increasing order |
| PropertyCodec.EncodeControlKeys | lib/agilecrm-wrapper/contact.rb:69-70 | the top-level part of a payload holds only control field names |
| PropertyCodec.CreatePayload | lib/agilecrm-wrapper/contact.rb:66-76 | `{first_name: "Anita", custom_field: "x"}` gives no top-level field, then a SYSTEM entry for `first_name` and a CUSTOM entry for `custom_field`, in that order |
| PropertyCodec.KeyOf | lib/agilecrm-wrapper/contact.rb:193 | definition: the (name, subtype) pair a merge compares, a missing field reading as nil; KeySelectorMatches relates it to the selector a read-back uses |
| PropertyCodec.Drop | lib/agilecrm-wrapper/contact.rb:192-197 | removing entries by key never lengthens the list |
| PropertyCodec.DropCounts | lib/agilecrm-wrapper/contact.rb:192-197 | every entry whose key is not removed is kept exactly as often as it occurs, and no entry with a removed key is kept |
| PropertyCodec.DropMembers | lib/agilecrm-wrapper/contact.rb:192-197 | every entry left is an entry of the list whose key is not removed |
| PropertyCodec.DropInOrder | lib/agilecrm-wrapper/contact.rb:192-197 | the entries left keep the list's order |
| PropertyCodec.Merged | lib/agilecrm-wrapper/contact.rb:190-200 | the merged list is at least as long as the existing list and at most as long as both lists together |
| PropertyCodec.MergeProperties | lib/agilecrm-wrapper/contact.rb:190-200 | the map over the existing entries, followed by appending what is left, computes exactly `Merged` |
| PropertyCodec.PrefixStep | lib/agilecrm-wrapper/contact.rb:192-197 | one more step of `delete_if` drops the entry exactly when its key matches, and a matching entry becomes the last value of that key |
| PropertyCodec.StampedStep | lib/agilecrm-wrapper/contact.rb:193-195 | one more step of `delete_if` overwrites the existing entry's value exactly when the entry's key matches |
| PropertyCodec.DeleteMatching | lib/agilecrm-wrapper/contact.rb:192-197 | the `delete_if` loop removes every remaining entry with the existing entry's (name, subtype); the existing entry then carries the last removed entry's value, and is unchanged when none matched |
| PropertyCodec.LastValue | lib/agilecrm-wrapper/contact.rb:192-196 | definition: the `value` of the last entry with a key, or nil when none has it; the value `delete_if` leaves in the existing entry (DeleteMatching, LastValueIsLast) |
| PropertyCodec.MergedEntry | lib/agilecrm-wrapper/contact.rb:191-198 | definition: the entry the map puts at a position, its value replaced by the key's last incoming value exactly when it is the first existing entry of its key and some incoming entry has that key; MergedShape states the merge in terms of it |
| PropertyCodec.LastValueIsLast | lib/agilecrm-wrapper/contact.rb:192-196 | the value an existing entry takes is that of the last incoming entry with its key, or nil when none has it |
| PropertyCodec.MergedShape | lib/agilecrm-wrapper/contact.rb:190-200 | the length is the existing length plus the number of incoming entries whose key no existing entry has; every existing entry stays at its position; only the first existing entry of a key takes a value; the incoming entries left over are appended in their order |
| PropertyCodec.MergedEntryShift | lib/agilecrm-wrapper/contact.rb:191-198 | after the first existing entry has consumed its matches, the rest of the map treats every later entry as the whole merge does |
| PropertyCodec.MergeTouchesOnlyValue | lib/agilecrm-wrapper/contact.rb:191-198 | a merge changes no field but `value`, leaves unmatched entries untouched, and appends only incoming entries, in their relative order |
| PropertyCodec.MergedKeys | lib/agilecrm-wrapper/contact.rb:191-199 | a merge keeps the (name, subtype) of every existing entry at its position, and every incoming key is present afterwards |
| PropertyCodec.AppendedFirstOfKey | lib/agilecrm-wrapper/contact.rb:199 | when the incoming entries have distinct keys, an appended entry is an incoming entry, and the first entry of its key in the merged list |
| PropertyCodec.LastValueOfDistinct | lib/agilecrm-wrapper/contact.rb:192-196 | among entries with distinct keys, the last value of an entry's key is that entry's own value |
| PropertyCodec.MergeIdempotent | lib/agilecrm-wrapper/contact.rb:190-200 | merging the same entries a second time changes nothing, provided they have distinct keys and each carries a `value` |
| PropertyCodec.EncodeMergeIdempotent | lib/agilecrm-wrapper/contact.rb:131-133 | encoding options with distinct keys, whose hash values all carry `value`, and merging the result twice gives the list that merging once gives |
| PropertyCodec.MergeTwiceWithRepeatedKey | lib/agilecrm-wrapper/contact.rb:190-200 | with two incoming entries of one key, merging twice differs from merging once |
| PropertyCodec.MergeWithDuplicates | lib/agilecrm-wrapper/contact.rb:191-197 | with two existing and two incoming entries of one key, the first existing entry takes the second incoming value, the second existing entry keeps its value, and nothing is appended |
| PropertyCodec.Matches | lib/agilecrm-wrapper/contact.rb:149-157 | definition: a name selector compares `name`; a hash selector requires every pair's field to read as its value; SelectorAccepts proves the source's flag loop equal to it |
| PropertyCodec.Selected | lib/agilecrm-wrapper/contact.rb:147-159 | the selection is no longer than the list, holds only entries of the list that match, and holds every matching entry |
| PropertyCodec.SelectedCounts | lib/agilecrm-wrapper/contact.rb:148 | every matching entry is selected exactly as often as it occurs in the list, and no other entry is |
| PropertyCodec.SelectedInOrder | lib/agilecrm-wrapper/contact.rb:148 | the selection keeps the list's order |
| PropertyCodec.SelectedSingle | lib/agilecrm-wrapper/contact.rb:147-159 | when exactly one entry matches, the selection is that entry alone |
| PropertyCodec.SelectedNone | lib/agilecrm-wrapper/contact.rb:147-159 | when no entry matches, the selection is empty |
| PropertyCodec.SelectedMany | lib/agilecrm-wrapper/contact.rb:147-159 | when two entries match, the selection holds at least two |
| PropertyCodec.Values | lib/agilecrm-wrapper/contact.rb:165 | definition: `arr.map` reading `i['value']`, the `value` of each entry in order, a missing one reading as nil |
| PropertyCodec.Lookup | lib/agilecrm-wrapper/contact.rb:163-168 | nil when no entry matches |
| PropertyCodec.LookupSingle | lib/agilecrm-wrapper/contact.rb:166-167 | with exactly one match, the lookup is that entry's value |
| PropertyCodec.LookupMany | lib/agilecrm-wrapper/contact.rb:164-165 | with two or more matches, the lookup is an array of the matching entries' values, in order |
| PropertyCodec.KeySelectorMatches | lib/agilecrm-wrapper/contact.rb:149-154 | the selector `{name:, subtype:}` matches an entry exactly when the entry has that (name, subtype), the pair a merge matches on |
| Contacts.Contact.constructor | lib/agilecrm-wrapper/contact.rb:5 | a contact holds the given top-level fields and, apart from them, its properties list or none |
| Contacts.Contact.SelectProperties | lib/agilecrm-wrapper/contact.rb:147-159 | without a properties list the call fails; otherwise the loop returns exactly `Selected` |
| Contacts.SelectorAccepts | lib/agilecrm-wrapper/contact.rb:149-157 | the flag loop over a hash selector accepts exactly the entries the selector matches; a name selector compares `name` |
| Contacts.Contact.GetProperty | lib/agilecrm-wrapper/contact.rb:161-169 | nil without a properties list, and nil when no entry matches |
| Contacts.Contact.UpdateAttributes | lib/agilecrm-wrapper/contact.rb:131-135 | without a properties list the call fails and nothing changes; otherwise the payload's control fields overwrite the top-level fields, and the list becomes `Merged` of the old list and the encoded entries |
| Contacts.UpdateReadsBack | lib/agilecrm-wrapper/contact.rb:131-135 | after updating one non-control key, reading back by (name, subtype) gives the new value; a key already present keeps the list's length; a new key was absent before and grows the list by one |
| Contacts.MergeOne | lib/agilecrm-wrapper/contact.rb:190-200 | merging one entry keeps every existing entry's key at its position, and the list grows by one exactly when the entry's key is new |
| Contacts.MergeOverwrites | lib/agilecrm-wrapper/contact.rb:190-200 | merging one entry whose key the list holds once keeps the length and makes the lookup give the new value |
| Contacts.OverwrittenEntry | lib/agilecrm-wrapper/contact.rb:190-200 | merging one entry whose key the list holds once overwrites that entry's value and appends nothing |
| Contacts.MergeAppends | lib/agilecrm-wrapper/contact.rb:190-200 | merging one entry with a new key grows the list by one, the lookup gives the new value, and the lookup before gave nil |
| Contacts.TwoPhonesByName | spec/agilecrm-wrapper/contact_spec.rb:162-166 | two phones looked up by name give an array of both numbers in order |
| Contacts.TwoPhonesBySubtype | spec/agilecrm-wrapper/contact_spec.rb:188-192 | looking up by name and subtype gives the one matching number |
| Contacts.UpdateMobilePhone | spec/agilecrm-wrapper/contact_spec.rb:137-143 | updating `phone` with a mobile hash changes the mobile number from 1232222222 to 1233333333 and keeps two entries |
| ContactResponses.Flatten | lib/agilecrm-wrapper/contact.rb:29 | the result holds no arrays |
| ContactResponses.FlattenLeaves | lib/agilecrm-wrapper/contact.rb:29 | a value is in the result exactly when it is no array and occurs at some depth of the input |
| ContactResponses.FlattenNested | lib/agilecrm-wrapper/contact.rb:29 | a nested array contributes its own flattening in its place |
| ContactResponses.FlattenAppend | lib/agilecrm-wrapper/contact.rb:29 | flattening distributes over concatenation |
| ContactResponses.FlattenFlat | lib/agilecrm-wrapper/contact.rb:29 | a list without nested arrays is unchanged |
| ContactResponses.Compact | lib/agilecrm-wrapper/contact.rb:29 | a value is in the result exactly when it is in the input and is not nil |
| ContactResponses.CompactCounts | lib/agilecrm-wrapper/contact.rb:29 | every non-nil value is kept exactly as often as it occurs, and no nil is kept |
| ContactResponses.CompactInOrder | lib/agilecrm-wrapper/contact.rb:29 | compacting keeps the input order |
| ContactResponses.Uniq | lib/agilecrm-wrapper/contact.rb:29 | the result has the same members as the input, each exactly once |
| ContactResponses.FirstIndex | lib/agilecrm-wrapper/contact.rb:29 | a position at which the value occurs |
| ContactResponses.FirstIndexIsFirst | lib/agilecrm-wrapper/contact.rb:29 | no position before FirstIndex holds the value, so it is the first occurrence that `uniq` keeps |
| ContactResponses.UniqKeepsFirstOccurrences | lib/agilecrm-wrapper/contact.rb:29 | `uniq` lists values in the order of their first occurrences |
| ContactResponses.CompactKeepsFirstOccurrences | lib/agilecrm-wrapper/contact.rb:29 | dropping nils keeps the order in which the other values first occur |
| ContactResponses.NormalizeEmails | lib/agilecrm-wrapper/contact.rb:29 | a value is sent exactly when it is neither nil nor an array and occurs at some depth of the arguments; each is sent once |
| ContactResponses.NormalizeEmailsOrder | lib/agilecrm-wrapper/contact.rb:29 | the e-mails are sent in the order of their first occurrences in the flattened arguments |
| ContactResponses.NormalizeNestedEmails | lib/agilecrm-wrapper/contact.rb:29 | `search_by_email('a@x.com', ['b@x.com', nil, 'a@x.com'])` sends the two addresses once each, in that order |
| ContactResponses.NewContact | lib/agilecrm-wrapper/contact.rb:13 | definition: Hashie::Mash `new`, as called at lines 13, 22, 35, 37, 47, 57 and 85: a hash gives its pairs, nil and false give an empty contact, any other value raises |
| ContactResponses.NewContacts | lib/agilecrm-wrapper/contact.rb:13 | `map { new }` over a list succeeds exactly when every element can be made a contact, and then gives one contact per element, in order |
| ContactResponses.ShapeList | lib/agilecrm-wrapper/contact.rb:10-17 | `all` / `search`: the response itself exactly when the status is not 200; on 200 an empty hash body gives no contacts, any other body that is no array raises, and an array body gives one contact per element, in order, unless an element cannot be made a contact, when it raises |
| ContactResponses.ListWithNumberRaises | lib/agilecrm-wrapper/contact.rb:13 | a body holding a number raises |
| ContactResponses.ShapeFind | lib/agilecrm-wrapper/contact.rb:19-26 | `find`: on 200 the contact built from the body, or a raise when the body cannot be made a contact; a not-found failure carrying the response exactly on 204; nil on any other status |
| ContactResponses.ShapeSearchByEmail | lib/agilecrm-wrapper/contact.rb:34-39 | more than one body entry gives one contact per non-nil entry, in order and with repeats (by Compact, CompactCounts, CompactInOrder), and raises when one of them cannot be made a contact; a single non-empty hash entry gives that contact, and One only arises so; an empty body, `{}`, or a lone entry that makes an empty contact (nil, false, `{}`) gives nil; any other body that is no array raises |
| ContactResponses.SearchByEmailLoneFalse | lib/agilecrm-wrapper/contact.rb:37-38 | a lone `false` makes an empty contact, so the result is nil |
| ContactResponses.SearchByEmailListOfOne | lib/agilecrm-wrapper/contact.rb:34-35 | a body of a null and a contact gives a list of one contact, not the contact |
| ContactResponses.ShapeCreated | lib/agilecrm-wrapper/contact.rb:53-60 | `create` / `update_score`: nil exactly when there is no response or its status is not 200; otherwise the contact built from the body, or a raise when the body cannot be made a contact |
| Json.Get | lib/agilecrm-wrapper/contact.rb:193-194 | definition: Ruby `h[k]` on a hash, with nil for a missing key, as `a[k.to_s]` at line 152 and `h['name']`, `h2['value']` at lines 193-194 read it |

## Left out

- HTTP transport: the requests of `all`, `find`, `search`, `search_by_email`, `create` and `update_score` are not modelled, because they are I/O; their responses are parameters.
- `delete`, `destroy`, `delete_tags`, `notes`, `save`, `update` and `change_owner`: they are transport calls followed by a merge of the response body. The `Faraday::ParsingError` rescue of `change_owner` is also left out, as it is foreign error handling.
- Form-body construction of `search_by_email` (`"email_ids=#{emails}"`): string formatting of a Ruby array is not modelled; only the normalised list is.
- `task.rb` and the fake server used by the tests are not part of this model.
- Hashie::Mash: `merge!` is modelled as plain overwriting of top-level keys, not the deep merge of nested hashes. `respond_to?(:properties)` is modelled as whether the contact has a properties list.
- Contacts.Contact.UpdateAttributes: a `properties` value that is nil, or any other value without `map`, is not distinguished from an absent key. Both raise in the source and give `ok == false` here. A hash value is not modelled: there `{}.map` gives `[]`, so the list becomes the new entries, and a non-empty hash with no property options becomes its `[k, v]` pairs.
- Symbol and string keys inside a property hash: `{subtype: 'mobile'}` and `{'subtype' => 'mobile'}` are modelled as one key. In the source they differ. `parse_property` merges the caller's hash into a plain Hash, and `merge_properties` reads it with string keys, so a symbol `:subtype` or `:value` reads as nil there. As a result, `update_attributes(phone: {value: 'x', subtype: 'mobile'})` never overwrites the existing mobile entry. Either the contact has a phone entry without a subtype, which then matches and has its value set to nil, with nothing appended; or it has none, and the update is appended as a new entry. The model gives the string-key behaviour for both spellings.
- Aliasing: the source updates the existing entry hashes and the incoming list in place (`h['value'] = …`, `delete_if`). The model computes new values, so a caller that holds references to those hashes is not modelled.
- ContactResponses.ShapeList, ContactResponses.ShapeFind, ContactResponses.ShapeSearchByEmail, ContactResponses.ShapeCreated: a raise is the outcome `ListRaises`, `FindRaises`, `EmailRaises` or `CreateRaises`; which exception is raised is not modelled.
- ContactResponses.NewContact: a contact is modelled by the fields of the Hashie::Mash that `new` builds. Mash's key conversion and its wrapping of nested hashes are not modelled, nor the object itself.
- Contacts.Contact.GetProperty: a `properties` key that is present but nil is modelled as an absent one. In the source `respond_to?` is then true and `nil.select` raises, while the model returns nil. Its own contract states only the nil outcomes. The values it returns for one or for several matches are stated by PropertyCodec.LookupSingle and PropertyCodec.LookupMany about `Lookup`, which it returns.
- PropertyCodec.Lookup: its own contract states only the nil outcome. The one-match and many-match results are stated by PropertyCodec.LookupSingle and PropertyCodec.LookupMany.
