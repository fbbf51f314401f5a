# Shopify app helpers: HMAC verification, shop domains and the OAuth redirect

This project models, in Dafny, the three helper groups a Shopify app built on this crate
relies on during installation and OAuth:

- **The MAC engine and request verifier** (`src/hmac_wrapper.rs`). The MAC of some data is
  keyed by the app's secret and rendered as lowercase hex or as padded base64. `valid_hmac`
  checks a callback query. It removes every `hmac` pair and remembers the last one's value.
  It rejects the query when nothing else is left. Otherwise it sorts the remaining pairs
  stably by key, joins them as `key=value` with `&`, and compares the hex MAC of that message
  with the remembered value.
- **The shop domain check** (`src/shop_url.rs`). `shopify_url` is an anchored match of
  `^[a-zA-Z0-9][a-zA-Z0-9\-]*\.myshopify\.com$`.
- **The OAuth redirect** (`src/auth_wrapper.rs`). `new_nonce` makes a random string
  URL-safe by replacing `+` with `-` and `/` with `_`. `new_auth_uri` fills the authorize
  template with the shop, API key, comma-joined scopes, return address, nonce and access
  mode, without percent-encoding any of them.

Modules:

- `Text` (`text.dfy`): bytes, an `Option` type, separator `Join` (Rust's `[S]::join`) and
  `Split` (Rust's `str::split`), with the lemmas relating them.
- `Encoding` (`encoding.dfy`): lowercase hex (the `hex` crate) and standard padded base64
  (the `base64` crate; section 4 of RFC 4648). Both have strict decoders, so the round trips
  and the uniqueness of each encoding can be stated. The base64 decoder rejects non-zero
  leftover bits in the last digit, as section 3.5 of RFC 4648 requires of canonical text.
- `App` (`app.dfy`): the fields of `ShopifyApp` that the helpers read.
- `KeySort` (`key_sort.dfy`): query pairs, Rust's byte-wise string order, and the stable
  `sort_by` on keys. The sort is proved sorted, a permutation, and stable.
- `HmacWrapper` (`hmac_wrapper.dfy`): the MAC engine, the acceptance condition `Verdict`
  written as a specification, and `valid_hmac` as an imperative method. The method has the
  source's two folds as loops and is proved to compute `Verdict`.
- `ShopUrl` (`shop_url.dfy`): the pattern as a predicate, the matcher, and what an accepted
  domain can and cannot contain.
- `AuthWrapper` (`auth_wrapper.dfy`): the nonce replacement step and the authorize URI. It
  also proves how the URI splits at `&`, both when the fields are clean and when the return
  address carries an `&`.

HMAC-SHA256 itself is a parameter, `mac: (Bytes, Bytes) -> Digest`, that returns 32 bytes.
Every property about it holds whatever function is passed.

Two places where the code is followed over its description:

- A query without an `hmac` pair is rejected. The code gets this result only because a
  64-digit hex string never equals the empty string. When a query has several `hmac` pairs,
  the code takes the last one. The model does both.
- The comment in `src/shop_url.rs` describes the label as alphanumerics followed by hyphens.
  The pattern actually allows hyphens and alphanumerics mixed in any order after the first
  character. The model follows the pattern.

## Model

| member | source | states |
|---|---|---|
| HmacWrapper.GenerateHmacHex | src/hmac_wrapper.rs:28-31 | 64 lowercase hex digits that decode back to the 32 MAC bytes; no other text decodes to them |
| HmacWrapper.GenerateHmacBase64 | src/hmac_wrapper.rs:33-36 | 44 characters: 43 base64 digits and one `=`, decoding back to the 32 MAC bytes; no other text decodes to them, so the leftover bits of the last digit are zero |
| HmacWrapper.Partition | src/hmac_wrapper.rs:39-54 | the fold returns the value of the last `hmac` pair (or empty) and every other pair in input order |
| HmacWrapper.JoinPairs | src/hmac_wrapper.rs:62-64 | the `&key=value` fold with its first byte dropped equals the rendered pairs joined with `&` |
| HmacWrapper.ValidHmac | src/hmac_wrapper.rs:38-69 | `valid_hmac` returns exactly `Verdict`: something besides `hmac` is signed, and the claimed value equals the hex MAC of the sorted, joined message |
| HmacWrapper.SignedAppend | src/hmac_wrapper.rs:41-54 | the signed pairs of a concatenation are those of its parts, so every `hmac` pair is dropped and every other kept in order |
| HmacWrapper.SignedCount | src/hmac_wrapper.rs:41-54 | every non-`hmac` pair occurs among the signed pairs as often as in the query, and no `hmac` pair occurs |
| HmacWrapper.SignedEmpty | src/hmac_wrapper.rs:41-58 | nothing is signed exactly when every key is `hmac` |
| HmacWrapper.ClaimedIsLast | src/hmac_wrapper.rs:39-49 | the claimed value is that of the last `hmac` pair, and empty when there is none |
| HmacWrapper.FailClosed | src/hmac_wrapper.rs:56-58 | a query without an `hmac` pair, or with only `hmac` pairs, is rejected whatever the MAC |
| HmacWrapper.VerdictExact | src/hmac_wrapper.rs:66-68 | accepted iff something is signed and the claimed value hex-decodes to the MAC, so only the exact lowercase spelling passes |
| HmacWrapper.ClaimedAfter | src/hmac_wrapper.rs:46-48 | pairs that are not `hmac` after the last `hmac` pair leave the claimed value unchanged |
| HmacWrapper.WithSignature | src/hmac_wrapper.rs:41-54 | an `hmac` pair inserted anywhere into a query without one is the claim and the only unsigned pair |
| HmacWrapper.SignRoundTrip | src/hmac_wrapper.rs:38-69 | a non-empty query signed over its own canonical message, with the signature inserted anywhere, is accepted |
| HmacWrapper.NoHmacSigned | src/hmac_wrapper.rs:41-54 | without `hmac` keys every pair is signed |
| HmacWrapper.OrderIndependent | src/hmac_wrapper.rs:41-68 | when no two different pairs share a key, every rearrangement of the query gets the same verdict |
| HmacWrapper.SignedPermuted | src/hmac_wrapper.rs:41-60 | rearranging the query rearranges the signed pairs and their sorted order, and keys still determine pairs |
| HmacWrapper.ClaimedPermuted | src/hmac_wrapper.rs:46-48 | when keys determine pairs, rearranging the query keeps the claimed value |
| HmacWrapper.ClaimedDetermined | src/hmac_wrapper.rs:46-48 | when keys determine pairs, the claimed value is the value of any `hmac` pair, and empty without one |
| HmacWrapper.CanonicalSplits | src/hmac_wrapper.rs:60-64 | with `&`-free keys and values, the message holds one `&` per gap and splits back into the sorted `key=value` pieces |
| HmacWrapper.SortedAvoids | src/hmac_wrapper.rs:60-64 | a byte other than `=` that is in no key or value is in no rendered pair after sorting |
| HmacWrapper.FoldStep | src/hmac_wrapper.rs:62-63 | one fold step adds one `&` and the next piece to the accumulator |
| KeySort.SortByKey | src/hmac_wrapper.rs:60 | `sort_by` on keys: the result is sorted, a permutation of the input, and keeps the order of pairs that share a key |
| KeySort.SortedUnique | src/hmac_wrapper.rs:60 | when keys determine pairs, two sorted arrangements of the same pairs are equal, so the sort's result does not depend on the input order |
| KeySort.LessEq | src/hmac_wrapper.rs:60 | Rust's byte-wise string order: `a` comes first or equals `b` exactly when it is a prefix of `b` or has the smaller byte where they first differ |
| KeySort.LessEqReflexive | src/hmac_wrapper.rs:60 | the byte-wise string order is reflexive |
| KeySort.LessEqAntisymmetric | src/hmac_wrapper.rs:60 | the byte-wise string order is antisymmetric |
| KeySort.LessEqTotal | src/hmac_wrapper.rs:60 | the byte-wise string order is total |
| KeySort.LessEqTransitive | src/hmac_wrapper.rs:60 | the byte-wise string order is transitive |
| KeySort.InsertSorted | src/hmac_wrapper.rs:60 | inserting into a sorted list keeps it sorted |
| KeySort.InsertMultiset | src/hmac_wrapper.rs:60 | inserting adds exactly the one pair |
| KeySort.InsertWithKey | src/hmac_wrapper.rs:60 | an inserted pair goes in front of the pairs with its own key, which is what makes the sort stable |
| KeySort.SameHead | src/hmac_wrapper.rs:60 | two sorted arrangements of the same pairs, where keys determine pairs, start with the same pair |
| Encoding.HexEncode | src/hmac_wrapper.rs:30 | two lowercase hex digits per byte |
| Encoding.HexRoundTrip | src/hmac_wrapper.rs:30 | hex decoding recovers the encoded bytes |
| Encoding.HexDecodeExact | src/hmac_wrapper.rs:66-68 | a string decodes to some bytes exactly when it is their lowercase encoding |
| Encoding.HexValue | src/hmac_wrapper.rs:30 | a byte has a value exactly when it is a lowercase hex digit, and the digit of that value is the byte |
| Encoding.Base64Encode | src/hmac_wrapper.rs:35 | four characters per started group of three bytes |
| Encoding.Base64RoundTrip | src/hmac_wrapper.rs:35 | base64 decoding recovers the encoded bytes |
| Encoding.Base64DecodeExact | src/hmac_wrapper.rs:35 | a string decodes to some bytes exactly when it is their standard encoding |
| Encoding.Base64DecodeCanonical | src/hmac_wrapper.rs:35 | whatever the strict decoder accepts is the encoding of its result |
| Encoding.Base64GroupExact | src/hmac_wrapper.rs:35 | a four-character group that decodes is the encoding of what it decodes to |
| Encoding.Base64Shape | src/hmac_wrapper.rs:35 | the encoding is alphabet digits followed by exactly the padding the length calls for |
| Encoding.Base64GroupShape | src/hmac_wrapper.rs:35 | a group of one to three bytes is digits followed by one `=` per missing byte |
| Text.JoinEnds | src/auth_wrapper.rs:54 | a join starts with the first part and ends with the last, so no separator comes before the first or after the last |
| Text.JoinSnoc | src/hmac_wrapper.rs:62-64 | appending a part to a non-empty join adds exactly one separator before it |
| Text.JoinSeparatorCount | src/auth_wrapper.rs:54 | with separator-free parts, a join of n parts holds n - 1 separators, and none for no parts |
| Text.SplitJoin | src/auth_wrapper.rs:54 | splitting a join of separator-free parts gives back the parts |
| Text.JoinSplit | src/auth_wrapper.rs:54 | joining the pieces of a split gives back the string |
| Text.JoinSplitsPart | src/auth_wrapper.rs:51 | a part holding the separator joins like the two parts on either side of it |
| Text.JoinAvoids | src/auth_wrapper.rs:54 | a character in no part and not in the separator is not in the join |
| ShopUrl.ShopifyUrl | src/shop_url.rs:16-26 | `shopify_url` is true exactly when the whole string matches the pattern |
| ShopUrl.MatchTailSuffix | src/shop_url.rs:16 | after the first character, the matcher accepts exactly label characters followed by `.myshopify.com` |
| ShopUrl.AcceptedIsSingleLabel | src/shop_url.rs:16 | an accepted domain ends in `.myshopify.com` and holds only ASCII letters, digits, hyphens and dots, so no white space and no character that could start a path, query, fragment, port, user information or second host; its only dots are the suffix's two |
| ShopUrl.HyphenPlacement | src/shop_url.rs:16 | a leading hyphen is rejected, and hyphens after the first character are accepted, including right before the suffix |
| ShopUrl.RejectsBareSuffix | src/shop_url.rs:16 | the empty string, the suffix with or without its dot, and an upper-case suffix are rejected |
| ShopUrl.AcceptsHyphenated | src/shop_url.rs:16 | `my-shop.myshopify.com` is accepted |
| ShopUrl.AcceptsDigit | src/shop_url.rs:16 | `a1.myshopify.com` is accepted |
| ShopUrl.AcceptsTrailingHyphen | src/shop_url.rs:16 | `a-.myshopify.com` is accepted |
| ShopUrl.RejectsBadLabels | src/shop_url.rs:16 | an underscore in the label and a leading hyphen are rejected |
| ShopUrl.RejectsExtraLabels | src/shop_url.rs:16 | another host before the suffix and a second label are rejected |
| ShopUrl.RejectsTrailingText | src/shop_url.rs:16 | a path or a trailing dot after the suffix is rejected |
| AuthWrapper.Replace | src/auth_wrapper.rs:45-46 | `replace` with one-character pattern and replacement keeps the length and maps each character on its own |
| AuthWrapper.SanitizeNonce | src/auth_wrapper.rs:42-47 | same length; `+` becomes `-`, `/` becomes `_`, everything else is kept; neither `+` nor `/` remains |
| AuthWrapper.SanitizeIdempotent | src/auth_wrapper.rs:45-46 | sanitising a sanitised nonce changes nothing |
| AuthWrapper.SanitizeKeepsSafe | src/auth_wrapper.rs:45-46 | a nonce with no `+` or `/` is unchanged |
| AuthWrapper.NewAuthUri | src/auth_wrapper.rs:49-59 | `new_auth_uri` is its five query parameters, in template order, joined with `&`; it starts with `https://` and the shop, and ends with `&grant_options[]=` and the access mode |
| AuthWrapper.ScopeFieldFew | src/auth_wrapper.rs:54 | for any scopes, none give an empty field and one gives itself |
| AuthWrapper.ScopeField | src/auth_wrapper.rs:54 | with comma-free scopes, the field holds n - 1 commas (none for no scopes) and a non-empty list splits back into the scopes |
| AuthWrapper.AuthUriParameters | src/auth_wrapper.rs:50-58 | when no field holds `&`, splitting the URI at `&` gives back exactly the five parameters |
| AuthWrapper.FieldsAvoid | src/auth_wrapper.rs:51 | the template text around the fields holds no `&` |
| AuthWrapper.ReturnUriInjects | src/auth_wrapper.rs:49-59 | since nothing is percent-encoded, an `&` in the return address ends `redirect_uri` early, and the rest arrives as a separate parameter |

## Left out

- HMAC-SHA256 internals (RFC 2104 over FIPS 180-4) are not modelled. The MAC is a function parameter that returns 32 bytes. So `GenerateHmacBytes` has no contract beyond its type, and no property depends on which function it is.
- A key rejected by `new_varkey` cannot happen: HMAC accepts keys of any length. The panic path of `expect` is therefore not modelled.
- The randomness of `TextNonce::new()` is not modelled. `SanitizeNonce` takes the random string as a parameter and models the two replacements applied to it.
- The regular-expression engine and the lazy static that holds the compiled pattern are not modelled. `ShopifyUrl` is the pattern's meaning, proved equivalent to a direct matcher.
- The comparison `encoded == hmac` is an ordinary string equality in the source. It is modelled as byte-sequence equality, and timing is out of scope.
- UTF-8 encoding is not modelled. Query keys and values, the secret and the digest text are taken as their bytes, since Rust orders and compares strings byte by byte. The URI, nonce and shop domain are character strings.
- `access_mode.as_string()` lives in a file that is not part of this model. Its text is the abstract string field `accessMode`.
- The `ShopifyApp` constructor and the rest of the crate are not part of this model.
- HmacWrapper.OrderIndependent: stated only for queries in which no two different pairs share a key. With a repeated key, the stable sort keeps the input order of those pairs, so a rearrangement can change the message; `KeySort.SortByKey` states that order exactly.
- A requirement of exactly one `hmac` pair is not enforced, because the code does not enforce it either: it accepts any number and uses the last one.
- Percent-encoding of the authorize URI's fields is not modelled, because the source does none. `AuthWrapper.ReturnUriInjects` shows what that allows.
