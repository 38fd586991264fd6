/** What is written can be read back. */
module KmipRoundTrip {
  import opened Bitwise
  import opened Ttlv
  import opened Wrappers
  import opened KmipReader
  import opened KmipWriter

  /** Any message nested at most nine deep survives being written and read. */
  method WriteAndRead(items: seq<Item>) returns (back: Walked)
    requires AllFit(items) && DepthAll(items) < MAX_POSITIONS
    ensures back == Walked(FoundAll(items), Finished, []) && ItemsOf(back) == Some(items)
  {
    hide WalkFrom, EncodeAll, AllFit, DepthAll, FoundAll, AllItems;
    var writer := new Writer();
    writer.WriteItems(items);
    assert [] + items == items;
    var bytes := writer.GetBuffer();
    var reader := new Reader(bytes, 0, |bytes|);
    back := reader.Items(|bytes|);
    WalkBack(items);
    ItemsRecovered(items);
    assert bytes[0..|bytes|] == bytes;
  }
}
