/** The state of the `App` component and the handlers that replace it. Each
    `useState` hook is a field; each setter call is an assignment to it. */
module AppComponent {
  import opened UrlList

  datatype ViewMode = Table | Text

  /** A view mode or JavaScript's `null`, as the toggle group reports it. */
  datatype ModeChoice = NoMode | Mode(mode: ViewMode)

  class App {
    var input: string
    var urlItems: seq<UrlItem>
    var viewMode: ViewMode
    /** The platform's `URL` constructor: whether it accepts a token. */
    const isUrl: string -> bool

    /** The list shown never holds two rows with the same url. */
    ghost predicate Valid()
      reads this
    {
      UniqueUrls(urlItems)
    }

    /** The initial state: empty input, no rows, table view. */
    constructor (isUrl: string -> bool)
      ensures Valid()
      ensures this.isUrl == isUrl
      ensures input == "" && urlItems == [] && viewMode == Table
    {
      this.isUrl := isUrl;
      input := "";
      urlItems := [];
      viewMode := Table;
    }

    /** `handleInputChange`: the text area's new value becomes the input. */
    method HandleInputChange(value: string)
      requires Valid()
      modifies this
      ensures Valid()
      ensures input == value
      ensures urlItems == old(urlItems) && viewMode == old(viewMode)
    {
      input := value;
    }

    /** `handleSubmit`: the rows are replaced wholesale by the deduplicated
        urls of the current input, all unused. */
    method HandleSubmit()
      modifies this
      ensures Valid()
      ensures urlItems == RemoveDuplicateUrls(input, isUrl)
      ensures forall i :: 0 <= i < |urlItems| ==> !urlItems[i].isUsed
      ensures input == old(input) && viewMode == old(viewMode)
    {
      urlItems := RemoveDuplicateUrls(input, isUrl);
      RemoveDuplicateUrlsContents(input, isUrl);
      RemoveDuplicateUrlsItems(input, isUrl);
    }

    /** `handleCheckboxChange(index)`: the row at `index` flips its used flag;
        every other row, every url and the length stay as they were, and an
        index outside the list changes nothing. */
    method HandleCheckboxChange(index: int)
      requires Valid()
      modifies this
      ensures Valid()
      ensures urlItems == ToggleAt(old(urlItems), index)
      ensures |urlItems| == |old(urlItems)| && Urls(urlItems) == Urls(old(urlItems))
      ensures forall i :: 0 <= i < |urlItems| && i != index ==> urlItems[i] == old(urlItems)[i]
      ensures 0 <= index < |urlItems| ==> urlItems[index].isUsed == !old(urlItems)[index].isUsed
      ensures !(0 <= index < |old(urlItems)|) ==> urlItems == old(urlItems)
      ensures input == old(input) && viewMode == old(viewMode)
    {
      ToggleAtSpec(urlItems, index);
      ToggleAtKeepsUnique(urlItems, index);
      urlItems := ToggleAt(urlItems, index);
    }

    /** `handleViewModeChange`: a `null` choice, which the toggle group
        reports when the pressed button is pressed again, is ignored. */
    method HandleViewModeChange(newMode: ModeChoice)
      requires Valid()
      modifies this
      ensures Valid()
      ensures viewMode == if newMode.Mode? then newMode.mode else old(viewMode)
      ensures input == old(input) && urlItems == old(urlItems)
    {
      if newMode.Mode? {
        viewMode := newMode.mode;
      }
    }
  }

  /** Two clicks on the same row bring the component back to where it was. */
  method DoubleToggleRestores(app: App, index: int)
    requires app.Valid()
    modifies app
    ensures app.Valid()
    ensures app.urlItems == old(app.urlItems)
    ensures app.input == old(app.input) && app.viewMode == old(app.viewMode)
  {
    app.HandleCheckboxChange(index);
    app.HandleCheckboxChange(index);
    ToggleAtTwice(old(app.urlItems), index);
  }
}
