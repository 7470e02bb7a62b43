# Link redirector: a Dafny model of the redirect logic

The page (`App.tsx`) sends the visitor on to one link picked from a fixed pool
and tries to get that link out of an in-app browser. On mount it draws one
entry from `LINKS`, stores it as `targetUrl`, and calls `performRedirect`.
`performRedirect(url)` first assigns `url` to `window.location.href`. If the
user agent contains `Android` in any letter case, it also sets a 100 ms timer.
That timer assigns a Chrome intent URL to the location:
`intent://<url without http:// or https://>#Intent;scheme=https;package=com.android.chrome;end`.
The "Click if not redirected" button calls `performRedirect(targetUrl)` again.
Under the button the page shows an ID: the text after the last `/` of
`targetUrl`, or `...` while `targetUrl` is empty.

The project has three modules:

- `Handoff` (`handoff.dfy`) holds the pure string work. `StripScheme` is the
  anchored, case-sensitive `^https?:\/\/` replacement. `IntentUrl` is the
  intent template, and `ParseIntent` recovers the stripped URL from it.
  `IsAndroid` is the `/Android/i` test: a search over every offset, specified
  by an existential.
- `Label` (`label.dfy`) holds `split('/')`, a `Join` that `Split` undoes
  (joining the pieces gives back the string), and the ID label. The label is
  specified as "the `/`-free suffix that is the whole string or follows a
  `/`", and that suffix is proved unique.
- `Redirect` (`redirect.dfy`) holds the stateful part. `Navigator` stands for
  the browser globals. It has a fixed `userAgent`, an append-only `log` of
  location assignments, and the `pending` timers that have not fired. `App`
  has the `targetUrl` field and the methods `Mount`, `PerformRedirect`,
  `Retry` and `FireHandoff`. Its invariant `Valid()` says that every pending
  timer is a 100 ms timer whose URL parses as an intent URL.

## Model

| member | source | states |
|---|---|---|
| `Handoff.SchemesExclusive` | App.tsx:39 | at most one of `http://` and `https://` can begin a URL, so the regular expression has one way to match |
| `Handoff.StripScheme` | App.tsx:39 | the result equals the input exactly when the input starts with neither `http://` nor `https://`; otherwise the input is that one prefix followed by the result |
| `Handoff.StripRemovesOnePrefix` | App.tsx:39 | stripping `http://` or `https://` followed by any text gives back exactly that text, even when the text is itself another scheme |
| `Handoff.StripNotIdempotent` | App.tsx:39 | `http://https://x` becomes `https://x`, and only a second strip yields `x`: one call removes one prefix only |
| `Handoff.StripKeepsUpperCaseScheme` | App.tsx:39 | the match is case-sensitive: `HTTP://…` and `HTTPS://…` are returned unchanged |
| `Handoff.StripOnlyAtStart` | App.tsx:39 | the match is anchored: `http://` or `https://` behind any non-empty lead that does not itself start with a scheme is left in place |
| `Handoff.IntentUrl` | App.tsx:39-41 | every handoff URL starts with `intent://` and ends with `#Intent;scheme=https;package=com.android.chrome;end` |
| `Handoff.ParseIntent` | App.tsx:41 | recognises exactly the strings with the fixed head and tail, and then the input is head + returned middle + tail |
| `Handoff.IntentRoundTrip` | App.tsx:39-41 | removing the fixed head and tail from the handoff URL of `u` gives back exactly the stripped `u` |
| `Handoff.IntentUrlSameIffSameStripped` | App.tsx:39-41 | two URLs get the same handoff URL if and only if they agree after stripping their scheme |
| `Handoff.IntentIgnoresScheme` | App.tsx:39-41 | `http://x` and `https://x` give the same handoff URL, `intent://x#Intent;…;end`, because `scheme=https` is fixed |
| `Handoff.MarkerLetterMatch` | App.tsx:38 | ASCII folding, which agrees with `/i` on the letters of `Android`: a character matches a letter of the marker exactly when it is that letter in small or capital form |
| `Handoff.SearchFrom` | App.tsx:38 | the search succeeds if and only if the pattern occurs, ignoring case, at some offset at or after its starting point |
| `Handoff.IsAndroid` | App.tsx:38 | the platform test holds if and only if `Android` occurs somewhere in the user agent, ignoring ASCII case |
| `Handoff.IsAndroidIgnoresCase` | App.tsx:38 | lowering every letter of the user agent does not change the outcome of the test |
| `Handoff.IsAndroidWhenMarkerPresent` | App.tsx:38 | a user agent that contains `Android` in any mix of cases, anywhere, passes the test |
| `Handoff.ShortUserAgentIsNotAndroid` | App.tsx:38 | a user agent shorter than seven characters never passes |
| `Label.Split` | App.tsx:78 | `split` always yields at least one piece |
| `Label.JoinSplit` | App.tsx:78 | joining the pieces of `split` with the separator gives back the original string |
| `Label.SplitPiecesFree` | App.tsx:78 | no piece of `split` contains the separator |
| `Label.LastPieceAfterLastSlash` | App.tsx:78 | the last piece of `split('/')` is a `/`-free suffix that is the whole string or is preceded by `/` |
| `Label.LastSegment` | App.tsx:78 | `split('/').pop()` is the text after the last `/` of its input |
| `Label.TextAfterLastSlashUnique` | App.tsx:78 | a string has only one such suffix, so the characterisation above fixes the label |
| `Label.IdLabel` | App.tsx:78 | the label is `...` for an empty `targetUrl`, and otherwise the text after its last `/` |
| `Label.IdLabelWithoutSlash` | App.tsx:78 | a non-empty `targetUrl` without `/` is shown whole |
| `Label.IdLabelAfterTrailingSlash` | App.tsx:78 | a `targetUrl` ending in `/` shows an empty ID |
| `Label.IdLabelOfPath` | App.tsx:78 | for any `front + "/" + id` with `id` free of `/`, the label is `id` |
| `Redirect.Navigator.constructor` | App.tsx:35 | a fresh browser has the given user agent, no navigations and no timers |
| `Redirect.Navigator.NavigateTo` | App.tsx:35 | assigning the location appends exactly that URL to the log and sets no timer |
| `Redirect.Navigator.SetTimeout` | App.tsx:43-45 | scheduling appends one timer with the given delay and URL and navigates nowhere yet |
| `Redirect.Navigator.FireNext` | App.tsx:43-45 | with timers of one common delay, firing runs the oldest one: it leaves `pending` and its URL is appended to the log; with none pending nothing changes |
| `Redirect.App.constructor` | App.tsx:19-21 | before the mount effect, `targetUrl` is empty and the browser has neither navigations nor timers |
| `Redirect.App.PerformRedirect` | App.tsx:33-47 | the log gains exactly `url`, unmodified; on an Android user agent exactly one timer of 100 ms for `IntentUrl(url)` is added after what was pending, otherwise none; earlier entries are kept, and every pending timer stays a handoff timer |
| `Redirect.App.Mount` | App.tsx:23-31 | given a drawn index below the pool size, `targetUrl` becomes `LINKS[index]` and that same URL is dispatched |
| `Redirect.App.Retry` | App.tsx:70-71 | the button dispatches `targetUrl` again, keeps it unchanged, and appends its own navigation and timer after the earlier ones |
| `Redirect.App.FireHandoff` | App.tsx:43-45 | a due handoff timer sets the location to its URL, which is an intent URL |
| `Redirect.AndroidSession` | App.tsx:23-47 | on Android, mount plus one retry plus both timers gives the log `[u, u, intent(u), intent(u)]` for the drawn link `u` |
| `Redirect.DesktopSession` | App.tsx:23-47 | on any other user agent, mount plus one retry gives the log `[u, u]` and leaves no timer |
| `Redirect.PoolHandoffs` | App.tsx:4-17 | every pool entry starts with `https://`, so its handoff URL carries the rest of the entry verbatim |

## Left out

- JSX, CSS classes and icons (App.tsx:49-82) are presentation only. The one expression the markup computes, the ID label, is modelled.
- `Math.random` and `Math.floor` (App.tsx:25) are not modelled. The drawn index is a parameter of `Mount`, and the precondition `index < |LINKS|` bounds it.
- The `redirecting` state (App.tsx:21) is not modelled, because nothing reads it.
- React's `useState` and `useEffect` are not modelled. `targetUrl` is a plain field. The mount effect dispatches the local `selectedUrl`, which equals the stored value, so the asynchronous state update does not matter here.
- Time is not modelled. The model keeps pending timers in the order they were set and fires the oldest first. This matches the browser because every timer the page sets has the same 100 ms delay, which `App.Valid()` keeps.
- Redirect.Navigator.NavigateTo: assumes every assigned URL parses. In a browser, assigning a URL that does not parse to `window.location.href` throws and navigates nowhere. The model always appends it to the log.
- Redirect.App.PerformRedirect: assumes `url` and its handoff URL both parse. If `url` does not, the assignment on App.tsx:35 throws, and the call stops before the user-agent test without setting a timer. If the handoff URL does not (`https://a b/` gives `intent://a b/#…`), the timer callback on App.tsx:44 throws and navigates nowhere. The model always logs and always schedules. The page only dispatches `LINKS` entries and the empty string, and all of these parse.
- Redirect.App.FireHandoff: assumes the handoff URL parses, for the same reason; the model always appends it to the log.
- Whether the browser honours a navigation cannot be observed, so it is not modelled. This includes a direct navigation that unloads the page and cancels its timer. The log records every assignment the page makes.
- The general regular-expression engine is not modelled. Only the anchored `https?://` prefix test and the unanchored case-insensitive search for `Android` are. The model folds ASCII letters only. JavaScript's `/i` folds other letters too, but without the `u` flag it never maps a non-ASCII character to an ASCII letter. So for the all-ASCII pattern `Android`, ASCII folding decides the test exactly (`MarkerLetterMatch`).
- JavaScript strings are UTF-16 code units, and the model's strings are sequences of Dafny characters. The two agree on every character the pattern and the prefixes mention.
- The link-analysis variant of the page, with URL normalisation and the classification request lifecycle, is not part of this model. Its source is not among the modelled files.
