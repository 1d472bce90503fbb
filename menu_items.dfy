/**
 * How a menu item gets its id from its label: lower-cased, each space
 * turned into a hyphen, and "-item" appended.  Both ways of building a menu
 * item (with and without a keyboard shortcut) derive the id this way.
 */
module MenuItems {
  import opened Optional
  import opened JavaStrings

  /** A keyboard shortcut: the key and its modifier keys, by name. */
  datatype Accelerator = Accelerator(keyCode: string, modifiers: seq<string>)

  /** The parts of a menu item the builder sets; the action handler is not modelled. */
  datatype MenuItem = MenuItem(text: string, id: string, accelerator: Option<Accelerator>)

  const ItemSuffix: string := "-item"

  /** The id derived from a label. */
  function MenuItemId(content: string): (id: string)
    ensures |id| == |content| + |ItemSuffix|
    ensures id[|content|..] == ItemSuffix
    ensures forall i :: 0 <= i < |content| ==>
              id[i] == if ToLowerChar(content[i]) == ' ' then '-' else ToLowerChar(content[i])
    ensures forall i :: 0 <= i < |id| ==> id[i] != ' '
  {
    LoweredWithHyphens(content);
    var id := Replace(LowerCase(content), " ", "-") + ItemSuffix;
    assert id[|content|..] == ItemSuffix;
    assert forall i :: |content| <= i < |id| ==> id[i] == ItemSuffix[i - |content|];
    id
  }

  /** `content.toLowerCase().replace(" ", "-")`, position by position. */
  lemma LoweredWithHyphens(content: string)
    ensures |Replace(LowerCase(content), " ", "-")| == |content|
    ensures forall i :: 0 <= i < |content| ==>
              Replace(LowerCase(content), " ", "-")[i] ==
              if ToLowerChar(content[i]) == ' ' then '-' else ToLowerChar(content[i])
  {
    ReplaceOneChar(LowerCase(content), ' ', '-');
    assert " " == [' '] && "-" == ['-'];
  }

  /** `createMenuItem(content, eventHandler, keyCode, modifiers...)`. */
  function CreateMenuItemWithShortcut(content: string, keyCode: string, modifiers: seq<string>): (item: MenuItem)
    ensures item.text == content && item.id == MenuItemId(content)
    ensures item.accelerator == Some(Accelerator(keyCode, modifiers))
  {
    MenuItem(content, MenuItemId(content), Some(Accelerator(keyCode, modifiers)))
  }

  /** `createMenuItem(content, eventHandler)`: no shortcut. */
  function CreateMenuItem(content: string): (item: MenuItem)
    ensures item.text == content && item.id == MenuItemId(content)
    ensures item.accelerator == None
  {
    MenuItem(content, MenuItemId(content), None)
  }

  /** The two builders give the same id to the same label, and it opens with the label lower-cased and hyphenated. */
  lemma BuildersAgreeOnId(content: string, keyCode: string, modifiers: seq<string>)
    ensures CreateMenuItem(content).id == CreateMenuItemWithShortcut(content, keyCode, modifiers).id
    ensures CreateMenuItem(content).id[..|content|] == Replace(LowerCase(content), " ", "-")
  {
    var lowered := LowerCase(content);
    ReplaceOneChar(lowered, ' ', '-');
  }

  /** The "Salvar como" item of the file menu. */
  lemma SaveAsItemId(caption: string)
    requires caption == "Salvar como"
    ensures MenuItemId(caption) == "salvar-como-item"
  {
    var id := MenuItemId(caption);
    var expected := "salvar-como-item";
    forall i | 0 <= i < |expected| ensures id[i] == expected[i] {
      if i >= |caption| {
        assert id[i] == id[|caption|..][i - |caption|];
      }
    }
  }
}
