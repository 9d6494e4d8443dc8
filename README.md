# Dog roster — a verified model

The Dogs app keeps, for as long as its main screen lives, an in-memory set of
dogs. Each dog has a name, a breed, a liked flag and an optional photo URL.
The user can add a dog through the "Add a Dog" form, like or unlike a dog,
remove a dog from the list or from its details screen, and search by name.
The list on screen is derived from the set on every change: liked dogs by
name, then unliked dogs by name, narrowed by a case-insensitive name prefix
when the search text is not empty.

This project models that roster logic of `MainActivity.kt` in Dafny and
proves what it promises:

- `strings.dfy` (module `Strings`) holds the pieces of Kotlin's string API
  the roster uses. These are `equals`/`startsWith` with `ignoreCase = true`
  (an ASCII case fold), the `compareTo` order behind `sortedBy { it.name }`,
  and `isBlank`. The order is proved to be a total order and to equal the
  first-differing-character definition of `compareTo`.
- `roster.dfy` (module `Roster`) holds the `Dog` record and the roster as a
  `set<Dog>`. It has the three updates as functions (add with its duplicate
  check, like toggle, remove) and the derived view `DerivedView`. It also
  holds the lemmas about them. The view lemmas say what it holds, its order,
  how the search narrows it, and that this description determines it
  uniquely.
- `dogs_screen.dfy` (module `DogsScreen`) holds the state kept by the main
  screen as a class with a `set<Dog>` field. Its methods are the event
  handlers that reassign that state. Each one keeps the unique-name invariant
  and is stated against the functions of `Roster`. The module also holds the
  add form's guard.

## Model

| member | source | states |
|---|---|---|
| `Strings.LowercaseAscii` | app/src/main/java/com/example/dogs/MainActivity.kt:159 | the case fold never yields an upper-case ASCII letter and changes a character only by mapping `A`–`Z` to `a`–`z` |
| `Strings.EqualsIgnoreCaseIsEquivalence` | app/src/main/java/com/example/dogs/MainActivity.kt:159 | equality ignoring case contains exact equality and is symmetric and transitive |
| `Strings.StartsWithIgnoreCaseBasics` | app/src/main/java/com/example/dogs/MainActivity.kt:76-79 | every name starts with the empty search text, and a name starts with any text equal to it ignoring case |
| `Strings.NameLeIsCompareTo` | app/src/main/java/com/example/dogs/MainActivity.kt:72-73 | the name order used for sorting is exactly `compareTo <= 0`: a prefix, or smaller at the first differing character |
| `Strings.NameLeToCompareTo` | app/src/main/java/com/example/dogs/MainActivity.kt:72-73 | a pair in the sorting order is a pair with `compareTo <= 0` |
| `Strings.CompareToToNameLe` | app/src/main/java/com/example/dogs/MainActivity.kt:72-73 | a pair with `compareTo <= 0` is a pair in the sorting order |
| `Strings.NameLeReflexive` | app/src/main/java/com/example/dogs/MainActivity.kt:72-73 | every name is ordered before or equal to itself |
| `Strings.NameLeTotal` | app/src/main/java/com/example/dogs/MainActivity.kt:72-73 | any two names are comparable |
| `Strings.NameLeTransitive` | app/src/main/java/com/example/dogs/MainActivity.kt:72-73 | the name order is transitive |
| `Strings.NameLeAntisymmetric` | app/src/main/java/com/example/dogs/MainActivity.kt:72-73 | two names ordered both ways are equal |
| `Strings.NotBlankHasVisibleChar` | app/src/main/java/com/example/dogs/MainActivity.kt:554 | a string is not blank exactly when it holds a non-whitespace character, so it is non-empty |
| `Roster.UniqueNamesAreExact` | app/src/main/java/com/example/dogs/MainActivity.kt:159 | under the invariant, two entries with the same exact name are the same entry |
| `Roster.TryAdd` | app/src/main/java/com/example/dogs/MainActivity.kt:159-177 | an add fails exactly when some entry's name equals the new name ignoring case; otherwise the roster is the old one plus the dog, one larger, and the invariant is kept |
| `Roster.FlipIsInvolution` | app/src/main/java/com/example/dogs/MainActivity.kt:120-124 | flipping one entry keeps its name and flipping twice gives the entry back |
| `Roster.FlipKeepsSize` | app/src/main/java/com/example/dogs/MainActivity.kt:119-125 | the toggle's `map { … }.toSet()` never merges two entries, so the roster keeps its size |
| `Roster.WithToggled` | app/src/main/java/com/example/dogs/MainActivity.kt:119-125 | an entry is in the toggled roster exactly when its flipped form was in the old one; size and invariant are kept |
| `Roster.ToggleEffect` | app/src/main/java/com/example/dogs/MainActivity.kt:119-125 | only entries with exactly the clicked name change: their `isLiked` is negated with name, breed and image kept; other entries are kept and none are added; an absent name changes nothing |
| `Roster.ToggleTwiceRestores` | app/src/main/java/com/example/dogs/MainActivity.kt:119-125 | toggling the same name twice restores the roster |
| `Roster.WithoutName` | app/src/main/java/com/example/dogs/MainActivity.kt:128 | removing keeps exactly the entries whose name differs from the given one; an absent name leaves the roster unchanged; the invariant is kept |
| `Roster.RemoveShrinksByOne` | app/src/main/java/com/example/dogs/MainActivity.kt:128 | under the invariant, removing a present dog removes that dog only and the roster shrinks by one |
| `Roster.FirstByNameExists` | app/src/main/java/com/example/dogs/MainActivity.kt:72-73 | every non-empty set of dogs has an entry whose name is first in name order |
| `Roster.SortedByName` | app/src/main/java/com/example/dogs/MainActivity.kt:72-73 | sorting by name lists every entry of the set exactly once, in ascending name order |
| `Roster.KeepMatching` | app/src/main/java/com/example/dogs/MainActivity.kt:79 | the search keeps exactly the entries whose name starts with the text ignoring case, and never lengthens the list |
| `Roster.KeepMatchingIsSubsequence` | app/src/main/java/com/example/dogs/MainActivity.kt:79 | the search result is a subsequence of the list searched: order is preserved |
| `Roster.KeepMatchingKeepsOrder` | app/src/main/java/com/example/dogs/MainActivity.kt:79 | searching a list in view order without repeats gives a list in view order without repeats |
| `Roster.KeepMatchingEmpty` | app/src/main/java/com/example/dogs/MainActivity.kt:76-79 | searching for the empty text keeps the whole list, so the `isEmpty` branch agrees with the filter |
| `Roster.BlocksInViewOrder` | app/src/main/java/com/example/dogs/MainActivity.kt:72-74 | a sorted liked block followed by a sorted unliked block is in view order without repeats |
| `Roster.UnfilteredView` | app/src/main/java/com/example/dogs/MainActivity.kt:71-77 | with an empty search the view holds every roster entry exactly once and nothing else; liked entries come before unliked ones, names ascending within each block |
| `Roster.ViewContents` | app/src/main/java/com/example/dogs/MainActivity.kt:71-80 | the view holds exactly the roster entries whose name starts with the search text ignoring case |
| `Roster.SearchFiltersView` | app/src/main/java/com/example/dogs/MainActivity.kt:76-80 | the view for any search text is the unfiltered view with non-matching entries dropped, order preserved; it stays in view order without repeats |
| `Roster.ViewOrderIsUnique` | app/src/main/java/com/example/dogs/MainActivity.kt:72-74 | with unique names, two repeat-free lists in view order over the same entries are equal |
| `Roster.ViewIsDetermined` | app/src/main/java/com/example/dogs/MainActivity.kt:71-81 | with unique names, any repeat-free list in view order holding exactly the matching entries is the view |
| `Roster.ViewExample` | app/src/main/java/com/example/dogs/MainActivity.kt:71-77 | the roster {Rex liked, Ann, Bo liked} is shown as Bo, Rex, Ann |
| `Roster.SearchExample` | app/src/main/java/com/example/dogs/MainActivity.kt:76-80 | in that roster the search text "r" shows only Rex |
| `DogsScreen.DogFromForm` | app/src/main/java/com/example/dogs/MainActivity.kt:621-624 | a dog is built exactly when name and breed each hold a non-whitespace character; it carries the entered name and breed, is not liked and has the fetched image or none |
| `DogsScreen.MainScreenState.constructor` | app/src/main/java/com/example/dogs/MainActivity.kt:63-69 | the screen starts with an empty roster (which meets the invariant), empty search, no selection, no error, on the dog list |
| `DogsScreen.MainScreenState.OnSearchTextChange` | app/src/main/java/com/example/dogs/MainActivity.kt:99-102 | the search text becomes the typed text, nothing else changes |
| `DogsScreen.MainScreenState.OnLikeClick` | app/src/main/java/com/example/dogs/MainActivity.kt:118-126 | the roster becomes the toggled roster, keeps its size and the invariant; nothing else changes |
| `DogsScreen.MainScreenState.OnRemoveClick` | app/src/main/java/com/example/dogs/MainActivity.kt:127-129 | the roster loses the entries with the dog's exact name (just that dog when it is present) and keeps the invariant |
| `DogsScreen.MainScreenState.OnDogClick` | app/src/main/java/com/example/dogs/MainActivity.kt:130-132 | the clicked dog becomes the selected dog |
| `DogsScreen.MainScreenState.OnDetailsRemoveClick` | app/src/main/java/com/example/dogs/MainActivity.kt:140-143 | the roster loses the entries with the dog's exact name and the selection is cleared |
| `DogsScreen.MainScreenState.OnDogAdded` | app/src/main/java/com/example/dogs/MainActivity.kt:158-177 | a name taken ignoring case sets "Dog with this name already exists." and changes neither roster nor screen; otherwise the roster gains the dog (one larger), the error is cleared and the screen returns to the dog list; the invariant is kept |
| `DogsScreen.MainScreenState.OnAddButtonClick` | app/src/main/java/com/example/dogs/MainActivity.kt:620-625 | a disabled button changes nothing; an enabled one adds the unliked dog built from the form, with the same outcomes as `OnDogAdded` |

## Left out

- Layout and rendering are not modelled: Compose scaffolding, lists, icons, top bars, the details, settings and profile screens, and image loading with coil. They only draw state.
- Navigation other than the return to the dog list after a successful add is not modelled (opening settings, profile or the add screen, back buttons). It is routing with no stated behaviour.
- The photo fetch in `AddDogScreen` and its REST client are not modelled. They are network I/O, JSON decoding and a coroutine. The fetched URL is a parameter of `DogFromForm` and `OnAddButtonClick`, and `None` stands for a failed fetch. The code copies `message` into the URL without looking at `status` (line 546); a design that maps a non-success status to "no photo" differs from the code here.
- `newDog` and the asynchronous timing of `LaunchedEffect(newDog)` are not modelled: the deferred insert is modelled as happening right after `onDogAdded`, which also resets `newDog` to null.
- The search bar's `isError` flag and its message are not modelled. The flag is only ever set to `false`.
- The liked/total counter above the list is not modelled. It only displays the size of the view.
- `Roster.SortedByName`: the model breaks ties between equal names in an unspecified way. Kotlin's `sortedBy` is stable over the insertion order of the underlying `LinkedHashSet`. Under the roster invariant names are unique, so no ties arise; `ViewIsDetermined` shows the view is then fully determined.
- `Strings.LowercaseAscii`: case-insensitive comparison folds only ASCII letters. Kotlin applies full Unicode upper/lower-case mapping per character, so non-ASCII letters that differ only in case count as different here.
- `Strings.NameLeIsCompareTo`: names are compared by Unicode scalar value. Kotlin compares UTF-16 code units, which orders characters outside the Basic Multilingual Plane differently.
- `Strings.IsWhitespace` follows the JVM's `Character.isWhitespace` or `Character.isSpaceChar` for the current Unicode tables. Older tables that count U+180E as a space are not followed.
- The default `breed = "Unknown"` of the `Dog` record is not modelled, because the add form always passes a breed.
- The view and the name sort are ghost functions: they are defined by choosing a first entry of a set, so the view is specified and proved but not executable.
