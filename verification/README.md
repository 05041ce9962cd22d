# TIL: a verified model of the contract and the letter avatar

TIL ("today I learned") is a small social app on NEAR. Users post short texts.
They can read a public timeline and per-user timelines, and follow or unfollow
each other. This project models two pieces of its code in Dafny:

- **The on-chain contract** (`contract/src/lib.rs`). Its state is a record:
  - `posts`, an append-only post log;
  - `userPosts`, each author's post ids;
  - `followings` and `followers`, the follow graph stored from both sides.

  Every public method is a pure function from state to state. The signer
  account and the block timestamp are parameters. A panic is a `Failure`,
  and a call that panics leaves the state as it was. The generic
  `paged_vector` is modelled twice:
  - `Paging.Page`, a reference definition (a window of the vector, read
    newest first);
  - `Paging.PagedVector`, the source's countdown loop, proved to return
    exactly `Page`.
- **The avatar colour** (`stringToColor` and `stringAvatar` in
  `src/components/LetterAvatar.js`). `LetterAvatar.StringToColor` copies the
  two source loops:
  - the hash loop keeps `hash` as an exact integer Number, and only `<< 5`
    truncates it, through ToInt32 (section 7.1.6 of ECMA-262);
  - the formatting loop shifts, masks and pads each byte.

  The method is proved equal to a reference: the polynomial hash
  `h := 31 * h + c` modulo 2^32, formatted as `'#'` followed by bytes 0, 1 and
  2 as lowercase hex. `ParseColor` reads a colour back, and the two are proved
  inverse in both directions.

Files:
- `wrappers.dfy`: `Option` and `Result`.
- `panics.dfy`: the ways a contract call panics.
- `paging.dfy`: `paged_vector`.
- `til.dfy`: contract state, transitions, queries and the `Valid` invariant.
- `til_properties.dfy`: invariant preservation, timeline properties, follow algebra.
- `ecma.dfy`: ToInt32, `<<`, `>>` and `& 0xff` on integral Numbers.
- `letter_avatar.dfy`: the colour and the avatar props.

`Valid` is the well-formedness every transition keeps. It has three parts:
- every post's id is its index;
- `userPosts[u]` is exactly the ids of `u`'s posts, oldest first, and has an
  entry for every author and no one else (so no entry is empty);
- the followings and followers maps mirror each other.

`RunValid` shows that every history of calls from the freshly deployed
contract keeps `Valid`. So the `unwrap()` in `user_timeline` never panics.

Points where the code behaves differently from what a reader might expect:
- The comments at contract/src/lib.rs:96 and :101 say pages start at 1, but
  page 0 is not rejected: contract/src/lib.rs:178 maps it to raw page 1, so
  it returns what page 2 returns (`PageZeroIsPageTwo`).
- A common reading of this hash truncates every step to 32 bits. In
  src/components/LetterAvatar.js:10 only `<<` truncates; the subtraction and
  addition are exact Number arithmetic. Both readings give the same low 32
  bits (`JsHashIsHash32`), and the colour reads only those.
- `user_timeline`, `followings` and `followers` (contract/src/lib.rs:102-110,
  155-167) return an empty list for an account with no entry without
  checking the page size. A page size over 100 panics only when the account
  has an entry.

## Model

| member | source | states |
|---|---|---|
| `Paging.Page` | contract/src/lib.rs:171-196 | Panics with `PageSizeTooLarge` exactly when `page_size > 100`. Otherwise returns `min(page_size, len - skipped)` items (none once `skipped >= len`), where `skipped = (page - 1) * page_size` for page ≥ 1 and `page_size` for page 0. Item `i` is `items[len - skipped - 1 - i]`, so the result is newest first |
| `Paging.PagedVector` | contract/src/lib.rs:175-195 | The source loop returns exactly `Page`: every `get` is in range, and the `start_idx < i` exit stops it after `len - skipped` items |
| `Paging.PageZeroIsPageTwo` | contract/src/lib.rs:178 | Page 0 returns the same result as page 2 |
| `Paging.EveryItemOnSomePage` | contract/src/lib.rs:178-194 | With a page size from 1 to 100, the item `j` places below the newest is at position `j % page_size` of page `j / page_size + 1`, so paging reaches every item |
| `Paging.PageKeepsDistinct` | contract/src/lib.rs:184-194 | A page of a duplicate-free vector has no duplicates |
| `Til.Utf8Len` | contract/src/lib.rs:43 | `content.len()` counts UTF-8 bytes: at least one and at most four per character |
| `Til.NewPost` | contract/src/lib.rs:42-52 | Panics with `ContentTooLong` exactly when the content is over 300 bytes. Otherwise the post carries the given id, content and author, and the block time |
| `Til.ContentLimitInCharacters` | contract/src/lib.rs:43-45 | Content of at most 75 characters is always accepted. Content of more than 300 characters is always rejected |
| `Til.IdsBy` | contract/src/lib.rs:85-91 | The reference for one author's id list: every listed id names a stored post of that author, the ids strictly increase, and every post of the author is listed |
| `Til.IdsByAppend` | contract/src/lib.rs:83-91 | Appending a post extends its author's reference id list by the new id and leaves every other author's list alone |
| `Til.DefaultValid` | contract/src/lib.rs:65-74 | The freshly deployed contract is well formed |
| `Til.ValidIndexSound` | contract/src/lib.rs:106 | In a well-formed state every id in `userPosts[u]` is below `|posts|`, and the post it names has that id and was written by `u` |
| `Til.CreatePost` | contract/src/lib.rs:78-94 | Over 300 bytes: panics and changes nothing. Otherwise: returns a post whose id is the old post count; appends exactly that post to `posts`; appends its id to the signer's list, creating the list if needed; leaves every other user's list and the follow graph unchanged |
| `Til.Follow` | contract/src/lib.rs:112-131 | Afterwards `me` follows `user` on both sides. Every other followings edge and every other followers edge keeps its old value. The only entries that can appear are `followings[me]` and `followers[user]`; no other entry is created or removed. Posts are untouched |
| `Til.Unfollow` | contract/src/lib.rs:133-146 | Afterwards `me` does not follow `user` on either side. Every other edge keeps its old value. No entry is created or removed |
| `Til.LookupAll` | contract/src/lib.rs:105-107 | The id-to-post lookup succeeds exactly when every id is in range; it then returns the posts at those ids in order. Otherwise it panics as a failed `unwrap` |
| `Til.UserTimeline` | contract/src/lib.rs:102-110 | Returns an empty list for a user with no entry, whatever the page size. For a user with an entry, a page size over 100 panics |
| `Til.Followings` | contract/src/lib.rs:155-160 | Empty for an account with no entry. Otherwise panics exactly when page size > 100. A page holds as many accounts as `paged_vector` selects from a vector of the set's size. Entry `k` is the account `k` places below the skipped ones in storage order. Every listed account is followed by `user`, and none is listed twice |
| `Til.Followers` | contract/src/lib.rs:162-167 | Empty for an account with no entry. Otherwise panics exactly when page size > 100. A page holds as many accounts as `paged_vector` selects from a vector of the set's size. Entry `k` is the account `k` places below the skipped ones in storage order. Every listed account is recorded as a follower of `user`, and none is listed twice |
| `Til.ListsCount` | contract/src/lib.rs:155-167 | The storage order of a set lists each member once, so it has as many entries as the set has members |
| `Til.PublicTimeline` | contract/src/lib.rs:97-99 | Panics with `PageSizeTooLarge` exactly when `page_size > 100`. Otherwise the page holds `min(page_size, len - skipped)` posts, and entry `k` is the post `k` places below the skipped newest ones |
| `TilProperties.AuthorsHaveEntries` | contract/src/lib.rs:85-91 | With an exact index, an account has a `userPosts` entry exactly when it has written a post. Its stored list, empty when there is no entry, is the reference list `IdsBy` |
| `TilProperties.CreatePostKeepsUserList` | contract/src/lib.rs:85-91 | After `create_post`, each user's id list is still exactly that user's posts |
| `TilProperties.CreatePostKeepsIndex` | contract/src/lib.rs:78-94 | `create_post` keeps `userPosts` exact: a list for every author, holding exactly their ids |
| `TilProperties.CreatePostKeepsValid` | contract/src/lib.rs:78-94 | `create_post` keeps the whole invariant: ids match positions, the index is exact, the follow maps mirror each other |
| `TilProperties.FollowKeepsValid` | contract/src/lib.rs:112-131 | `follow` keeps the invariant, the mirror between `followings` and `followers` included |
| `TilProperties.UnfollowKeepsValid` | contract/src/lib.rs:133-146 | `unfollow` keeps the invariant, the mirror included |
| `TilProperties.RunValid` | contract/src/lib.rs:65-146 | Every sequence of `create_post`, `follow` and `unfollow` calls from the deployed contract leaves a well-formed state |
| `TilProperties.PublicTimelineNewestFirst` | contract/src/lib.rs:96-99 | When ids match positions, the public timeline panics only for page size > 100. Post `k` of a page has id `len - skipped - 1 - k`, so ids descend |
| `TilProperties.PageKeepsAuthor` | contract/src/lib.rs:103-105 | A page of an id list whose ids all name posts of `user` also names only posts of `user` |
| `TilProperties.PageOfIncreasingDecreases` | contract/src/lib.rs:103-105 | A page of a strictly increasing id list is strictly decreasing |
| `TilProperties.UserTimelineAuthored` | contract/src/lib.rs:102-110 | In a well-formed state, `user_timeline` panics only when the user has an entry and the page size is over 100. It never reaches the unwrap panic. It returns as many posts as the page of the user's ids holds, all by `user`, ids strictly descending |
| `TilProperties.LookupPage` | contract/src/lib.rs:103-107 | Looking up a page of ids that all name posts of `user` never panics, and entry `k` is the post whose id is `k` places below the skipped newest ids |
| `TilProperties.UserTimelineWindow` | contract/src/lib.rs:102-110 | With an exact index, a `user_timeline` page holds as many posts as `paged_vector` selects from the user's stored id list. Entry `k` is the post whose id is `k` places below the skipped newest ids of that list. By `AuthorsHaveEntries` the list is the reference list `IdsBy` |
| `TilProperties.UserTimelineNeverUnwrapsNone` | contract/src/lib.rs:106 | The `unwrap` in `user_timeline` never panics on any state that a history of calls can reach |
| `TilProperties.NewPostHeadsPublicTimeline` | contract/src/lib.rs:78-99 | A post under 301 bytes is accepted and is the first entry of public page 1, for any page size from 1 to 100 |
| `TilProperties.NewPostHeadsUserTimeline` | contract/src/lib.rs:78-110 | With an exact index, a post under 301 bytes is the first entry of page 1 of its author's timeline |
| `TilProperties.FollowIdempotent` | contract/src/lib.rs:112-131 | Following twice gives the same state as following once |
| `TilProperties.UnfollowIdempotent` | contract/src/lib.rs:133-146 | Unfollowing twice gives the same state as unfollowing once |
| `TilProperties.FollowThenUnfollowRestoresRelation` | contract/src/lib.rs:112-146 | If `me` did not follow `user` before, `follow` then `unfollow` restores both follow relations |
| `TilProperties.IsFollowIffListed` | contract/src/lib.rs:148-160 | `is_follow(user1, user2)` holds exactly when `user2` is listed on some page of size 100 of `followings(user1)` |
| `TilProperties.FollowTwoListsNewestFirst` | contract/src/lib.rs:269-303 | After `me` follows `user` and then `user2`, with storage order `[user, user2]` (the order the set appends in, which the model takes as a parameter), page 1 of `followings(me)` is `[user2, user]`. `followers(user)` is `[me]`, and `followers(me)` is empty |
| `TilProperties.FollowersListFollowers` | contract/src/lib.rs:155-167 | When the maps mirror each other, everyone on a `followers(user)` page follows `user` by `is_follow` |
| `Ecma.ToInt32` | src/components/LetterAvatar.js:10 | ToInt32 returns the one value in [-2^31, 2^31) congruent to its argument modulo 2^32 |
| `Ecma.LeftShift` | src/components/LetterAvatar.js:10 | `x << count` is in [-2^31, 2^31) and congruent to `x * 2^count` modulo 2^32 |
| `Ecma.SignedRightShift` | src/components/LetterAvatar.js:16 | `x >> count` is in [-2^31, 2^31) and is `ToInt32(x) / 2^count` rounded toward negative infinity |
| `Ecma.AndLowByte` | src/components/LetterAvatar.js:16 | `& 0xff` returns a value in 0..255 congruent to its argument modulo 256 |
| `LetterAvatar.HashStepCongruent` | src/components/LetterAvatar.js:10 | One loop step `charCode + ((hash << 5) - hash)` is congruent to `31 * hash + charCode` modulo 2^32 |
| `LetterAvatar.JsHashIsHash32` | src/components/LetterAvatar.js:5-11 | The loop's exact Number, taken modulo 2^32, equals the polynomial hash folded left to right from 0 |
| `LetterAvatar.JsHashBound` | src/components/LetterAvatar.js:9-11 | After `n` code units the Number's magnitude is at most `n * (2^31 + 2^16)`, so it stays exact for names under about four million code units |
| `LetterAvatar.HashIsOrderSensitive` | src/components/LetterAvatar.js:9-11 | Swapping two code units can change the hash |
| `LetterAvatar.ToHexString` | src/components/LetterAvatar.js:17 | `toString(16)` writes lowercase hex digits with no leading zero: one digit exactly when the value is below 16 |
| `LetterAvatar.ToHexStringRoundTrip` | src/components/LetterAvatar.js:17 | Parsing the hex string back gives the original number |
| `LetterAvatar.Pad2IsHexByte` | src/components/LetterAvatar.js:17 | For every value 0..255, `` `00${v.toString(16)}`.slice(-2) `` is its two hex digits, high nibble first, zero-padded |
| `LetterAvatar.ChannelIsByte` | src/components/LetterAvatar.js:16 | `(hash >> (i * 8)) & 0xff` is bits `8i` to `8i + 7` of the hash modulo 2^32, including when ToInt32 reads the hash as negative |
| `LetterAvatar.ColorPrefixIsColor` | src/components/LetterAvatar.js:13-18 | The three rounds of the formatting loop build exactly the reference colour |
| `LetterAvatar.Color` | src/components/LetterAvatar.js:13-18 | A colour is seven characters: `'#'` and six lowercase hex digits |
| `LetterAvatar.ParseColorRoundTrip` | src/components/LetterAvatar.js:13-18 | A colour reads back as the low 24 bits of its hash: characters 1-2 are bits 0-7, 3-4 are bits 8-15, 5-6 are bits 16-23 |
| `LetterAvatar.ColorOfParse` | src/components/LetterAvatar.js:13-18 | Every string that parses as a colour is the colour of its parsed value, so distinct 24-bit values give distinct colours |
| `LetterAvatar.StringToColor` | src/components/LetterAvatar.js:4-22 | The source's two loops return the reference colour of the 31-multiplier hash modulo 2^32, so the same code units always give the same colour. The result is `'#'` plus six lowercase hex digits and parses back to the hash's low 24 bits |
| `LetterAvatar.EmptyNameIsBlack` | src/components/LetterAvatar.js:5-21 | The empty string gives `"#000000"` |
| `LetterAvatar.StringAvatar` | src/components/LetterAvatar.js:24-34 | Fails exactly on an empty name, because `name[0]` is undefined. Otherwise: the background is the name's colour; the label is one code unit, the first one with an ASCII lowercase letter upper-cased; width and height are equal; the size is 40 when missing or 0 and the given size otherwise |

## Left out

- NEAR storage mechanics are replaced by Dafny `seq`, `map` and `set`. This covers Borsh serialisation, the `BorshStorageKey` prefixes, the `env::sha256` account hashes, the serde JSON form and the `U64` wrapper.
- `env::signer_account_id()` and `env::block_timestamp()` are parameters, because the runtime is not part of this model.
- Til.Followings: the listing order of the accounts comes from the internal vector of `UnorderedSet`, which is not part of this model. The caller passes that order as `order`, which must list the set's members exactly once. A page reads that order from its end, as `Page` does for any vector.
- Til.Followers: the same as `Followings`, for the followers set.
- TilProperties.FollowTwoListsNewestFirst: the storage order `[user, user2]` is assumed, not derived from the follow history, because the append order of `UnorderedSet` is not part of this model. Any other listing of the same set is accepted by `Lists` and would give its own page order.
- Paging.Page: page numbers, page sizes, post ids and timestamps are unbounded naturals, not `u64`. The overflow of `raw_page * page_size` is not modelled, because whether overflow panics or wraps depends on a build profile that is not part of this model.
- LetterAvatar.JsHashIsHash32: the loop's Number is treated as exact. Above 2^53 it would round. `JsHashBound` shows this cannot happen for names under about four million code units.
- LetterAvatar.StringAvatar: upper-casing covers only the ASCII letters `a`-`z`. Full Unicode `toUpperCase` (locale tables, one code unit becoming several) is not modelled. A `NaN` or non-number size, and a `name` that is not a string, are not modelled either.
- The text of the panic messages (`"content too long"`, the page-size message, the `unwrap` message) is not modelled. A panic is identified by its kind alone.
- The React components (`HomeTab`, `PostForm`, `FollowButton`, `Head`, `Timeline`, the pages, `App`) are left out. They are rendering, routing and asynchronous contract calls with alerts.
- The relative timestamp display in `Timeline.js` is left out. It uses floating-point division and a date library.
