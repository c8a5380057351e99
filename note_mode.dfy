/**
 * The pencil note mode: whether notes are being drawn, the ink colour, and
 * whether the pencil erases instead.
 */
module NoteMode {

  /** SwiftUI colours: the six named ones the panel offers, and any other colour. */
  datatype Color = Orange | Purple | Green | Cyan | Pink | Yellow | Other(id: int)

  /** `availableColors`, in panel order. */
  const AvailableColors: seq<Color> := [Orange, Purple, Green, Cyan, Pink, Yellow]

  class NoteModeState {
    var isActive: bool
    var selectedColor: Color
    var isErasing: bool

    /** The initial state: inactive, orange, not erasing; orange is one of the offered colours. */
    constructor()
      ensures !isActive && selectedColor == Orange && !isErasing
      ensures selectedColor in AvailableColors
    {
      isActive := false;
      selectedColor := Orange;
      isErasing := false;
    }

    /** `activate()`: note mode on, the eraser off, the colour kept. */
    method Activate()
      modifies this
      ensures isActive && !isErasing && selectedColor == old(selectedColor)
    {
      isActive := true;
      isErasing := false;
    }

    /** `deactivate()`: note mode and the eraser off, the colour kept. */
    method Deactivate()
      modifies this
      ensures !isActive && !isErasing && selectedColor == old(selectedColor)
    {
      isActive := false;
      isErasing := false;
    }

    /** `toggleEraser()`: only the eraser flag flips. */
    method ToggleEraser()
      modifies this
      ensures isErasing == !old(isErasing)
      ensures isActive == old(isActive) && selectedColor == old(selectedColor)
    {
      isErasing := !isErasing;
    }

    /** `selectColor(_:)`: the colour is set, the eraser off, the mode kept. */
    method SelectColor(color: Color)
      modifies this
      ensures selectedColor == color && !isErasing && isActive == old(isActive)
    {
      selectedColor := color;
      isErasing := false;
    }
  }

  /** Two eraser toggles give back the state they started from. */
  method ToggleEraserTwice(state: NoteModeState)
    modifies state
    ensures state.isActive == old(state.isActive)
    ensures state.selectedColor == old(state.selectedColor)
    ensures state.isErasing == old(state.isErasing)
  {
    state.ToggleEraser();
    state.ToggleEraser();
  }

  /** Choosing an offered colour and then erasing: the ink colour survives the switch to the eraser. */
  method EraseAfterSelect(state: NoteModeState, i: nat)
    requires i < |AvailableColors|
    modifies state
    ensures state.isErasing && state.selectedColor == AvailableColors[i] && state.isActive == old(state.isActive)
  {
    state.SelectColor(AvailableColors[i]);
    state.ToggleEraser();
  }
}
