/** The event handlers that the species autocomplete panel attaches to its
    text input: focus and blur swap the placeholder title in and out, keyup
    marks text that matches no species as invalid, and submit asks the
    widget for a fresh search and cancels the submit event it receives. */
module Autocomplete {
  import opened Text
  import opened Matcher

  /** The shortest text that keyup checks against the species list; the
      widget is configured with the same minimum. */
  const MinLength: nat := 3

  class SpeciesInput {
    /** The input's `title` attribute, shown as placeholder text; the input
        is taken to carry one. */
    const title: string
    /** The species names, read once when the panel starts. */
    const speciesList: seq<string>
    /** The text in the input. */
    var value: string
    /** Whether the input carries the CSS class `inactive`. */
    var inactive: bool
    /** Whether the input carries the CSS class `invalid`. */
    var invalid: bool
    /** The text of the input at each search the handlers asked the widget
        for, oldest first. */
    var searches: seq<string>

    /** The input as the page delivers it; its text and classes come from
        the page's markup (or from the browser restoring a form). */
    constructor (title: string, speciesList: seq<string>, value: string, inactive: bool, invalid: bool)
      ensures this.title == title && this.speciesList == speciesList
      ensures this.value == value && this.inactive == inactive && this.invalid == invalid
      ensures searches == []
    {
      this.title := title;
      this.speciesList := speciesList;
      this.value := value;
      this.inactive := inactive;
      this.invalid := invalid;
      searches := [];
    }

    /** Focus: the placeholder is cleared and the inactive styling removed;
        any other non-empty text is searched again. */
    method Focus()
      modifies this
      ensures old(value) == title ==> value == [] && !inactive && searches == old(searches)
      ensures old(value) != title ==> value == old(value) && inactive == old(inactive)
      ensures old(value) != title ==>
        searches == old(searches) + (if old(value) != [] then [old(value)] else [])
      ensures invalid == old(invalid)
    {
      if value == title {
        value := [];
        inactive := false;
      } else if value != [] {
        searches := searches + [value];
      }
    }

    /** Blur: whatever the state, the invalid styling goes, the inactive
        styling comes back and the text is reset to the placeholder. */
    method Blur()
      modifies this
      ensures !invalid && inactive && value == title
      ensures searches == old(searches)
    {
      invalid := false;
      inactive := true;
      value := title;
    }

    /** Keyup, after the browser has put text in the input: text of at least
        MinLength characters is invalid iff filterArray finds no species for
        it; shorter text is never marked invalid. */
    method Keyup(text: string)
      modifies this
      ensures value == text && inactive == old(inactive) && searches == old(searches)
      ensures invalid <==> |text| >= MinLength && FilterArray(speciesList, text) == []
      ensures invalid <==>
        |text| >= MinLength && forall x :: x in speciesList ==> !Matches(Normalize(text), x)
    {
      value := text;
      if |value| >= MinLength {
        var matches := FilterArray(speciesList, value);
        FilterArrayEmpty(speciesList, value);
        if |matches| > 0 {
          invalid := false;
        } else {
          invalid := true;
        }
      } else {
        invalid := false;
      }
    }

    /** Submit: asks the widget to search for the current text and returns
        false, which cancels the submit event it handles. The handler is
        bound to the input, not to its form. */
    method Submit() returns (proceed: bool)
      modifies this
      ensures !proceed
      ensures searches == old(searches) + [old(value)]
      ensures value == old(value) && inactive == old(inactive) && invalid == old(invalid)
    {
      searches := searches + [value];
      proceed := false;
    }
  }

  /** Tabbing through the input: after a blur and a focus the input is empty,
      active and not marked invalid, whatever it held before (the input has
      a title; see SpeciesInput.title). */
  method BlurThenFocus(input: SpeciesInput)
    modifies input
    ensures input.value == [] && !input.inactive && !input.invalid
    ensures input.searches == old(input.searches)
  {
    input.Blur();
    input.Focus();
  }
}
