/**
  The state the main screen keeps between events (the roster, the search
  text, the selected dog, the current screen, the add screen's error) and the
  event handlers that change it, together with the add form's guard.
 */
module DogsScreen {
  import opened Strings
  import opened Roster

  datatype Screen = DogList | Settings | Profile | AddDog

  /** `isButtonEnabled` of the add form: both fields hold something besides whitespace. */
  predicate AddButtonEnabled(dogName: string, dogBreed: string) {
    !IsBlank(dogName) && !IsBlank(dogBreed)
  }

  /**
    The add button: a new, unliked `Dog` with the entered name and breed and
    the fetched image (if any), built only when the button is enabled.
   */
  function DogFromForm(dogName: string, dogBreed: string, imageUrl: Option<string>): (r: Option<Dog>)
    ensures r.Some? <==>
      (exists i :: 0 <= i < |dogName| && !IsWhitespace(dogName[i])) &&
      (exists i :: 0 <= i < |dogBreed| && !IsWhitespace(dogBreed[i]))
    ensures r.Some? ==>
      r.value.name == dogName && r.value.breed == dogBreed &&
      !r.value.isLiked && r.value.imageUrl == imageUrl
  {
    NotBlankHasVisibleChar(dogName);
    NotBlankHasVisibleChar(dogBreed);
    if AddButtonEnabled(dogName, dogBreed) then Some(Dog(dogName, false, dogBreed, imageUrl)) else None
  }

  class MainScreenState {
    var dogs: set<Dog>
    var searchText: string
    var selectedDog: Option<Dog>
    var currentScreen: Screen
    var addDogError: Option<string>

    /** The roster invariant: names are unique ignoring case. */
    ghost predicate Valid()
      reads this
    {
      UniqueNames(dogs)
    }

    /** The list the screen shows. */
    ghost function FilteredDogs(): seq<Dog>
      reads this
    {
      DerivedView(dogs, searchText)
    }

    /** The state the screen starts with: an empty roster on the dog list. */
    constructor ()
      ensures Valid()
      ensures dogs == {} && searchText == "" && selectedDog == None
      ensures currentScreen == DogList && addDogError == None
    {
      dogs := {};
      searchText := "";
      selectedDog := None;
      currentScreen := DogList;
      addDogError := None;
    }

    method OnSearchTextChange(text: string)
      modifies this`searchText
      ensures searchText == text
    {
      searchText := text;
    }

    /** The heart icon of a list entry. */
    method OnLikeClick(dog: Dog)
      requires Valid()
      modifies this`dogs
      ensures Valid()
      ensures dogs == WithToggled(old(dogs), dog.name)
      ensures |dogs| == |old(dogs)|
    {
      dogs := WithToggled(dogs, dog.name);
    }

    /** The delete icon of a list entry. */
    method OnRemoveClick(dog: Dog)
      requires Valid()
      modifies this`dogs
      ensures Valid()
      ensures dogs == WithoutName(old(dogs), dog.name)
      ensures dog in old(dogs) ==> dogs == old(dogs) - {dog}
    {
      if dog in dogs {
        RemoveShrinksByOne(dogs, dog);
      }
      dogs := WithoutName(dogs, dog.name);
    }

    /** Tapping a list entry opens its details. */
    method OnDogClick(dog: Dog)
      modifies this`selectedDog
      ensures selectedDog == Some(dog)
    {
      selectedDog := Some(dog);
    }

    /** The delete button of the details screen: remove, then back to the list. */
    method OnDetailsRemoveClick(dog: Dog)
      requires Valid()
      modifies this`dogs, this`selectedDog
      ensures Valid()
      ensures dogs == WithoutName(old(dogs), dog.name)
      ensures selectedDog == None
    {
      dogs := WithoutName(dogs, dog.name);
      selectedDog := None;
    }

    /**
      `onDogAdded` followed by the `LaunchedEffect(newDog)` that inserts the dog:
      a name taken ignoring case sets the error and changes nothing else;
      otherwise the dog joins the roster, the error is cleared and the list is shown.
     */
    method OnDogAdded(dog: Dog)
      requires Valid()
      modifies this`dogs, this`addDogError, this`currentScreen
      ensures Valid()
      ensures HasNameIgnoringCase(old(dogs), dog.name) ==>
        dogs == old(dogs) && addDogError == Some(DuplicateNameMessage) && currentScreen == old(currentScreen)
      ensures !HasNameIgnoringCase(old(dogs), dog.name) ==>
        dogs == old(dogs) + {dog} && |dogs| == |old(dogs)| + 1 &&
        addDogError == None && currentScreen == DogList
    {
      match TryAdd(dogs, dog)
      case DuplicateName =>
        addDogError := Some(DuplicateNameMessage);
      case Added(roster) =>
        addDogError := None;
        currentScreen := DogList;
        dogs := roster;
    }

    /** The add form's button: does nothing unless enabled, otherwise adds the built dog. */
    method OnAddButtonClick(dogName: string, dogBreed: string, imageUrl: Option<string>)
      requires Valid()
      modifies this`dogs, this`addDogError, this`currentScreen
      ensures Valid()
      ensures !AddButtonEnabled(dogName, dogBreed) ==>
        dogs == old(dogs) && addDogError == old(addDogError) && currentScreen == old(currentScreen)
      ensures AddButtonEnabled(dogName, dogBreed) && !HasNameIgnoringCase(old(dogs), dogName) ==>
        dogs == old(dogs) + {Dog(dogName, false, dogBreed, imageUrl)} &&
        addDogError == None && currentScreen == DogList
      ensures AddButtonEnabled(dogName, dogBreed) && HasNameIgnoringCase(old(dogs), dogName) ==>
        dogs == old(dogs) && addDogError == Some(DuplicateNameMessage) && currentScreen == old(currentScreen)
    {
      match DogFromForm(dogName, dogBreed, imageUrl)
      case None =>
      case Some(dog) =>
        OnDogAdded(dog);
    }
  }
}
