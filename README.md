# SmartSense mobile app: selection and auth-gate logic in Dafny

This project models the two pieces of decision logic in the SmartSense music
app's client that are not rendering, SDK glue or network calls:

- **The `MultiSelect` picker** (`components/ui/multi-select.tsx`): tapping an
  option toggles its id in the list of selected ids, and the closed picker shows
  a one-line label built from the selection. Selections are `seq<string>` and
  may hold duplicates. Options are `seq<Option>` with an `id` and a `name`. The
  `onSelectionChange` callback is modelled as the return value of
  `ToggleOption`. JavaScript's `Array.filter` is the generic `Sequences.Filter`.
  Its contract makes it a subsequence that keeps every accepted element with
  its multiplicity, and `Sequences.FilterUnique` shows that this contract fixes
  the result.
- **The root layout's auth gate** (`app/_layout.tsx`): an effect that runs when
  the sign-in state or the route changes and may replace the route. The
  decision is the pure function `AuthGate.RedirectTarget` over `isLoaded`,
  `isSignedIn` and the route segments. Its result is a `Redirect` value that
  stands for the `router.replace` call. An empty segment list has no first
  segment, so it is in neither the `(tabs)` nor the `(auth)` group.

Files: `sequences.dfy` (filter and subsequences), `multi_select.dfy`,
`auth_gate.dfy`.

## Model

| member | source | states |
|---|---|---|
| `Sequences.Filter` | components/ui/multi-select.tsx:37 | the result is a subsequence of the input (order kept) holding exactly the accepted elements, each as many times as in the input |
| `Sequences.FilterUnique` | components/ui/multi-select.tsx:46 | any subsequence with those element counts equals the filter result, so the filter is determined by its contract |
| `MultiSelect.EffectivePlaceholder` | components/ui/multi-select.tsx:31 | an omitted placeholder becomes "Select options..."; a given one is used as is |
| `MultiSelect.ToggleOption` | components/ui/multi-select.tsx:35-41 | a selected id loses every copy and the others keep their order and counts; an unselected id is appended last and the length grows by one; the id is in the result exactly when it was absent before, and every other id keeps its membership |
| `MultiSelect.ToggleRemovesAll` | components/ui/multi-select.tsx:36-37 | removing a selected id gives the input's multiset with that id's count set to zero |
| `MultiSelect.ToggleRemovesSingle` | components/ui/multi-select.tsx:36-37 | for an id held once at index i, the result is the list without index i |
| `MultiSelect.ToggleTwiceAbsent` | components/ui/multi-select.tsx:36-40 | toggling an unselected id twice gives back the original list |
| `MultiSelect.ToggleTwicePresentOnce` | components/ui/multi-select.tsx:35-41 | toggling an id held once twice moves it to the end; unless it was already last, the list is not restored |
| `MultiSelect.ToggleExample` | components/ui/multi-select.tsx:35-41 | ["pop","rock"] toggled on "pop" gives ["rock"], and toggled again gives ["rock","pop"] |
| `MultiSelect.SelectedOptions` | components/ui/multi-select.tsx:45-46 | the options whose id is selected, as a subsequence of the options list, each as many times as it is listed |
| `MultiSelect.GetSelectedLabel` | components/ui/multi-select.tsx:31-49 | an empty selection shows the placeholder prop, or "Select options..." when it is omitted; otherwise the label is the names of the selected options (`Names`, the `.map` at line 47), in options order, joined by ", " (`Join`, the `.join` at line 48) |
| `MultiSelect.JoinContainsPart` | components/ui/multi-select.tsx:48 | every name appears whole at its computed offset in the joined label |
| `MultiSelect.JoinSeparatorAt` | components/ui/multi-select.tsx:48 | between two consecutive names stands exactly the separator |
| `MultiSelect.JoinLength` | components/ui/multi-select.tsx:48 | the joined label ends right after the last name, so with the two lemmas above every character of the label is fixed |
| `MultiSelect.LabelDependsOnMatchedIds` | components/ui/multi-select.tsx:44-48 | two selections that are both empty or both non-empty and match the same listed options give the same label, so selection order, repeated ids and ids matching no option do not change it |
| `MultiSelect.LabelUnmatched` | components/ui/multi-select.tsx:44-48 | a non-empty selection that matches no option gives "", not the placeholder |
| `MultiSelect.LabelOrderExample` | components/ui/multi-select.tsx:45-48 | selecting ["jazz","pop"] out of Pop, Rock, Jazz shows "Pop, Jazz" |
| `MultiSelect.LabelDuplicatesExample` | components/ui/multi-select.tsx:45-47 | an option listed twice appears twice, and an id selected twice adds its name only once per listing |
| `AuthGate.RedirectTarget` | app/_layout.tsx:35-46 | no redirect until auth has loaded; signed in outside "(tabs)" goes to the tabs; signed out outside "(auth)" goes to sign-in; otherwise no redirect (each case as an if-and-only-if) |
| `AuthGate.EmptyRouteRedirects` | app/_layout.tsx:38-39 | once loaded, an empty route always redirects, to the tabs or to sign-in according to the auth state |
| `AuthGate.HrefMatchesSegments` | app/_layout.tsx:42-44 | the href passed to the router (`Href`), "/(tabs)" or "/(auth)/sign-in", is the path of the target's route segments |
| `AuthGate.TargetMatchesAuthState` | app/_layout.tsx:41-44 | a signed-in user is sent to the tabs group, a signed-out user to the sign-in screen |
| `AuthGate.RedirectSettles` | app/_layout.tsx:41-45 | after navigating to the chosen target with the same auth state, the effect redirects no further |

## Left out

- Rendering of the picker (the modal's `visible` state, JSX, styles): UI with no behaviour beyond open and close.
- `MultiSelect.GetSelectedLabel`: the label equals the placeholder text on a non-empty selection only if the names happen to join to that text; the model states which branch is taken, not that the strings differ.
- The provider nesting of the root layout and the module-load error on a missing Clerk publishable key (app/_layout.tsx:17-23): environment and SDK setup.
- How the router turns an href into route segments: library code, stood in for by `AuthGate.TargetSegments`.
- Network wrappers (services/backend.ts), the auth and sensor React contexts, the auth redirect screen, theme and configuration constants: I/O, SDK glue or constants without logic.
- The sensor-based context inference (activity, environment, location matching) lives in screen files outside this model; its location match is a floating-point Euclidean distance in degrees (`Math.sqrt`) compared with a 0.001 threshold, which unbounded integers do not capture.
