/** `PQ_IGMB` as shipped: every entry is R·(1/7)^rev(k). */
module IgmbTable {
  import opened Bits
  import opened Twiddles
  import opened Rows
  import opened TableRows

  const IGMB_00 := Row16(
    4091, 4401, 1081, 1229, 2530, 6014, 7947, 5329, 2579, 4751, 6464, 11703, 7023, 2812, 5890, 10698)
  const IGMB_01 := Row16(
    3109, 2125, 1960, 10925, 10601, 10404, 4189, 1875, 5847, 8546, 4615, 5190, 11324, 10578, 5882, 11155)
  const IGMB_02 := Row16(
    8417, 12275, 10599, 7446, 5719, 3569, 5981, 10108, 4426, 8306, 10755, 4679, 11052, 1538, 11857, 100)
  const IGMB_03 := Row16(
    8247, 6625, 9725, 5145, 3412, 7858, 5831, 9460, 5217, 10740, 7882, 7506, 12172, 11292, 6049, 79)
  const IGMB_04 := Row16(
    13, 6938, 8886, 5453, 4586, 11455, 2903, 4676, 9843, 7621, 8822, 9109, 2083, 8507, 8685, 3110)
  const IGMB_05 := Row16(
    7015, 3269, 1367, 6397, 10259, 8435, 10527, 11559, 11094, 2211, 1808, 7319, 48, 9547, 2560, 1228)
  const IGMB_06 := Row16(
    9438, 10787, 11800, 1820, 11406, 8966, 6159, 3012, 6109, 2796, 2203, 1652, 711, 7004, 1053, 8973)
  const IGMB_07 := Row16(
    5244, 1517, 9322, 11269, 900, 3888, 11133, 10736, 4949, 7616, 9974, 4746, 10270, 126, 2921, 6720)
  const IGMB_08 := Row16(
    6635, 6543, 1582, 4868, 42, 673, 2240, 7219, 1296, 11989, 7675, 8578, 11949, 989, 10541, 7687)
  const IGMB_09 := Row16(
    7085, 8487, 1004, 10236, 4703, 163, 9143, 4597, 6431, 12052, 2991, 11938, 4647, 3362, 2060, 11357)
  const IGMB_10 := Row16(
    12011, 6664, 5655, 7225, 5914, 9327, 4092, 5880, 6932, 3402, 5133, 9394, 11229, 5252, 9008, 1556)
  const IGMB_11 := Row16(
    6908, 4773, 3853, 8780, 10325, 7737, 1758, 7103, 11375, 12273, 8602, 3243, 6536, 7590, 8591, 11552)
  const IGMB_12 := Row16(
    6101, 3253, 9969, 9640, 4506, 3736, 6829, 10822, 9130, 9948, 3566, 2133, 3901, 6038, 7333, 6609)
  const IGMB_13 := Row16(
    3468, 4659, 625, 2700, 7738, 3443, 3060, 3388, 3526, 4418, 11911, 6232, 1730, 2558, 10340, 5344)
  const IGMB_14 := Row16(
    5286, 2190, 11562, 6199, 2482, 8756, 5387, 4101, 4609, 8605, 8226, 144, 5656, 8704, 2621, 5424)
  const IGMB_15 := Row16(
    10812, 2959, 11346, 6249, 1715, 4951, 9540, 1888, 3764, 39, 8219, 2080, 2502, 1469, 10550, 8709)
  const IGMB_16 := Row16(
    5601, 1093, 3784, 5041, 2058, 8399, 11448, 9639, 2059, 9878, 7405, 2496, 7918, 11594, 371, 7993)
  const IGMB_17 := Row16(
    3073, 10326, 40, 10004, 9245, 7987, 5603, 4051, 7894, 676, 11380, 7379, 6501, 4981, 2628, 3488)
  const IGMB_18 := Row16(
    10956, 7022, 6737, 9933, 7139, 2330, 3884, 5473, 7865, 6941, 5737, 5613, 9505, 11568, 11277, 2510)
  const IGMB_19 := Row16(
    6689, 386, 4462, 105, 2076, 10443, 119, 3955, 4370, 11505, 3672, 11439, 750, 3240, 3133, 754)
  const IGMB_20 := Row16(
    4013, 11929, 9210, 5378, 11881, 11018, 2818, 1851, 4966, 8181, 2688, 6205, 6814, 926, 2936, 4327)
  const IGMB_21 := Row16(
    10175, 7089, 6047, 9410, 10492, 8950, 2472, 6255, 728, 7569, 6056, 10432, 11036, 2452, 2811, 3787)
  const IGMB_22 := Row16(
    945, 8998, 1244, 8815, 11017, 11218, 5894, 4325, 4639, 3819, 9826, 7056, 6786, 8670, 5539, 7707)
  const IGMB_23 := Row16(
    1361, 9812, 2949, 11265, 10301, 9108, 478, 6489, 101, 1911, 9483, 3608, 11997, 10536, 812, 8915)
  const IGMB_24 := Row16(
    637, 8159, 5299, 9128, 3512, 8290, 7068, 7922, 3036, 4759, 2163, 3937, 3755, 11306, 7739, 4922)
  const IGMB_25 := Row16(
    11932, 424, 5538, 6228, 11131, 7778, 11974, 1097, 2890, 10027, 2569, 2250, 2352, 821, 2550, 11016)
  const IGMB_26 := Row16(
    7769, 136, 617, 3157, 5889, 9219, 6855, 120, 4405, 1825, 9635, 7214, 10261, 11393, 2441, 9562)
  const IGMB_27 := Row16(
    11176, 599, 2085, 11465, 7233, 6177, 4801, 9926, 9010, 4514, 9455, 11352, 11670, 6174, 7950, 9766)
  const IGMB_28 := Row16(
    6896, 11603, 3213, 8473, 9873, 2835, 10422, 3732, 7961, 1457, 10857, 8069, 832, 1628, 3410, 4900)
  const IGMB_29 := Row16(
    10855, 5111, 9543, 6325, 7431, 4083, 3072, 8847, 9853, 10122, 5259, 11413, 6556, 303, 1465, 3871)
  const IGMB_30 := Row16(
    4873, 5813, 10017, 6898, 3311, 5947, 8637, 5852, 3856, 928, 4933, 8530, 1871, 2184, 5571, 5879)
  const IGMB_31 := Row16(
    3481, 11597, 9511, 8153, 35, 2609, 5963, 8064, 1080, 12039, 8444, 3052, 3813, 11065, 6736, 8454)
  const IGMB_32 := Row16(
    2340, 7651, 1910, 10709, 2117, 9637, 6402, 6028, 2124, 7701, 2679, 5183, 6270, 7424, 2597, 6795)
  const IGMB_33 := Row16(
    9222, 10837, 280, 8583, 3270, 6753, 2354, 3779, 6102, 4732, 5926, 2497, 8640, 10289, 6107, 12127)
  const IGMB_34 := Row16(
    2958, 12287, 10292, 8086, 817, 4021, 2610, 1444, 5899, 11720, 3292, 2424, 5090, 7242, 5205, 5281)
  const IGMB_35 := Row16(
    9956, 2702, 6656, 735, 2243, 11656, 833, 3107, 6012, 6801, 1126, 6339, 5250, 10391, 9642, 5278)
  const IGMB_36 := Row16(
    3513, 9769, 3025, 779, 9433, 3392, 7437, 668, 10184, 8111, 6527, 6568, 10831, 6482, 8263, 5711)
  const IGMB_37 := Row16(
    9780, 467, 5462, 4425, 11999, 1205, 5015, 6918, 5096, 3827, 5525, 11579, 3518, 4875, 7388, 1931)
  const IGMB_38 := Row16(
    6615, 1541, 8708, 260, 3385, 4792, 4391, 5697, 7895, 2155, 7337, 236, 10635, 11534, 1906, 4793)
  const IGMB_39 := Row16(
    9527, 7239, 8354, 5121, 10662, 2311, 3346, 8556, 707, 1088, 4936, 678, 10245, 18, 5684, 960)
  const IGMB_40 := Row16(
    4459, 7957, 226, 2451, 6, 8874, 320, 6298, 8963, 8735, 2852, 2981, 1707, 5408, 5017, 9876)
  const IGMB_41 := Row16(
    9790, 2968, 1899, 6729, 4183, 5290, 10084, 7679, 7941, 8744, 5694, 3461, 4175, 5747, 5561, 3378)
  const IGMB_42 := Row16(
    5227, 952, 4319, 9810, 4356, 3088, 11118, 840, 6257, 486, 6000, 1342, 10382, 6017, 4798, 5489)
  const IGMB_43 := Row16(
    4498, 4193, 2306, 6521, 1475, 6372, 9029, 8037, 1625, 7020, 4740, 5730, 7956, 6351, 6494, 6917)
  const IGMB_44 := Row16(
    11405, 7487, 10202, 10155, 7666, 7556, 11509, 1546, 6571, 10199, 2265, 7327, 5824, 11396, 11581, 9722)
  const IGMB_45 := Row16(
    2251, 11199, 5356, 7408, 2861, 4003, 9215, 484, 7526, 9409, 12235, 6157, 9025, 2121, 10255, 2519)
  const IGMB_46 := Row16(
    9533, 3824, 8674, 11419, 10888, 4762, 11303, 4097, 2414, 6496, 9953, 10554, 808, 2999, 2130, 4286)
  const IGMB_47 := Row16(
    12078, 7445, 5132, 7915, 245, 5974, 4874, 7292, 7560, 10539, 9952, 9075, 2113, 3721, 10285, 10022)
  const IGMB_48 := Row16(
    9578, 8934, 11074, 9498, 294, 4711, 3391, 1377, 9072, 10189, 4569, 10890, 9909, 6923, 53, 4653)
  const IGMB_49 := Row16(
    439, 10253, 7028, 10207, 8343, 1141, 2556, 7601, 8150, 10630, 8648, 9832, 7951, 11245, 2131, 5765)
  const IGMB_50 := Row16(
    10343, 9781, 2718, 1419, 4531, 3844, 4066, 4293, 11657, 11525, 11353, 4313, 4869, 12186, 1611, 10892)
  const IGMB_51 := Row16(
    11489, 8833, 2393, 15, 10830, 5003, 17, 565, 5891, 12177, 11058, 10412, 8885, 3974, 10981, 7130)
  const IGMB_52 := Row16(
    5840, 10482, 8338, 6035, 6964, 1574, 10936, 2020, 2465, 8191, 384, 2642, 2729, 5399, 2175, 9396)
  const IGMB_53 := Row16(
    11987, 8035, 4375, 6611, 5010, 11812, 9131, 11427, 104, 6348, 9643, 6757, 12110, 5617, 10935, 541)
  const IGMB_54 := Row16(
    135, 3041, 7200, 6526, 5085, 12136, 842, 4129, 7685, 11079, 8426, 1008, 2725, 11772, 6058, 1101)
  const IGMB_55 := Row16(
    1950, 8424, 5688, 6876, 12005, 10079, 5335, 927, 1770, 273, 8377, 2271, 5225, 10283, 116, 11807)
  const IGMB_56 := Row16(
    91, 11699, 757, 1304, 7524, 6451, 8032, 8154, 7456, 4191, 309, 2318, 2292, 10393, 11639, 9481)
  const IGMB_57 := Row16(
    12238, 10594, 9569, 7912, 10368, 9889, 12244, 7179, 3924, 3188, 367, 2077, 336, 5384, 5631, 8596)
  const IGMB_58 := Row16(
    4621, 1775, 8866, 451, 6108, 1317, 6246, 8795, 5896, 7283, 3132, 11564, 4977, 12161, 7371, 1366)
  const IGMB_59 := Row16(
    12130, 10619, 3809, 5149, 6300, 2638, 4197, 1418, 10065, 4156, 8373, 8644, 10445, 882, 8158, 10173)
  const IGMB_60 := Row16(
    9763, 12191, 459, 2966, 3166, 405, 5000, 9311, 6404, 8986, 1551, 8175, 3630, 10766, 9265, 700)
  const IGMB_61 := Row16(
    8573, 9508, 6630, 11437, 11595, 5850, 3950, 4775, 11941, 1446, 6018, 3386, 11470, 5310, 5476, 553)
  const IGMB_62 := Row16(
    9474, 2586, 1431, 2741, 473, 11383, 4745, 836, 4062, 10666, 7727, 11752, 5534, 312, 4307, 4351)
  const IGMB_63 := Row16(
    5764, 8679, 8381, 8187, 5, 7395, 4363, 1152, 5421, 5231, 6473, 436, 7567, 8603, 6229, 8230)

  const IGMB_0 := Block(IGMB_00, IGMB_01, IGMB_02, IGMB_03, IGMB_04, IGMB_05, IGMB_06, IGMB_07)
  const IGMB_1 := Block(IGMB_08, IGMB_09, IGMB_10, IGMB_11, IGMB_12, IGMB_13, IGMB_14, IGMB_15)
  const IGMB_2 := Block(IGMB_16, IGMB_17, IGMB_18, IGMB_19, IGMB_20, IGMB_21, IGMB_22, IGMB_23)
  const IGMB_3 := Block(IGMB_24, IGMB_25, IGMB_26, IGMB_27, IGMB_28, IGMB_29, IGMB_30, IGMB_31)
  const IGMB_4 := Block(IGMB_32, IGMB_33, IGMB_34, IGMB_35, IGMB_36, IGMB_37, IGMB_38, IGMB_39)
  const IGMB_5 := Block(IGMB_40, IGMB_41, IGMB_42, IGMB_43, IGMB_44, IGMB_45, IGMB_46, IGMB_47)
  const IGMB_6 := Block(IGMB_48, IGMB_49, IGMB_50, IGMB_51, IGMB_52, IGMB_53, IGMB_54, IGMB_55)
  const IGMB_7 := Block(IGMB_56, IGMB_57, IGMB_58, IGMB_59, IGMB_60, IGMB_61, IGMB_62, IGMB_63)

  const IGMB := Table(IGMB_0, IGMB_1, IGMB_2, IGMB_3, IGMB_4, IGMB_5, IGMB_6, IGMB_7)

  // By computation, each row beyond the first is an earlier one times a constant.

  lemma FirstRow()
    ensures RowGrows(IGMB_00, 1479, 8246, 4134, 6429)
  {
  }

  lemma Rows1()
    ensures RowStep(IGMB_00, IGMB_01, 10938) && RowStep(IGMB_00, IGMB_02, 726)
    ensures RowStep(IGMB_01, IGMB_03, 726)
  {
  }

  lemma Rows4()
    ensures RowStep(IGMB_00, IGMB_04, 5374) && RowStep(IGMB_01, IGMB_05, 5374)
    ensures RowStep(IGMB_02, IGMB_06, 5374) && RowStep(IGMB_03, IGMB_07, 5374)
  {
  }

  lemma Rows8()
    ensures RowStep(IGMB_00, IGMB_08, 11813) && RowStep(IGMB_01, IGMB_09, 11813)
    ensures RowStep(IGMB_02, IGMB_10, 11813) && RowStep(IGMB_03, IGMB_11, 11813)
  {
  }

  lemma Rows12()
    ensures RowStep(IGMB_04, IGMB_12, 11813) && RowStep(IGMB_05, IGMB_13, 11813)
    ensures RowStep(IGMB_06, IGMB_14, 11813) && RowStep(IGMB_07, IGMB_15, 11813)
  {
  }

  lemma Rows16()
    ensures RowStep(IGMB_00, IGMB_16, 1254) && RowStep(IGMB_01, IGMB_17, 1254)
    ensures RowStep(IGMB_02, IGMB_18, 1254) && RowStep(IGMB_03, IGMB_19, 1254)
  {
  }

  lemma Rows20()
    ensures RowStep(IGMB_04, IGMB_20, 1254) && RowStep(IGMB_05, IGMB_21, 1254)
    ensures RowStep(IGMB_06, IGMB_22, 1254) && RowStep(IGMB_07, IGMB_23, 1254)
  {
  }

  lemma Rows24()
    ensures RowStep(IGMB_08, IGMB_24, 1254) && RowStep(IGMB_09, IGMB_25, 1254)
    ensures RowStep(IGMB_10, IGMB_26, 1254) && RowStep(IGMB_11, IGMB_27, 1254)
  {
  }

  lemma Rows28()
    ensures RowStep(IGMB_12, IGMB_28, 1254) && RowStep(IGMB_13, IGMB_29, 1254)
    ensures RowStep(IGMB_14, IGMB_30, 1254) && RowStep(IGMB_15, IGMB_31, 1254)
  {
  }

  lemma Rows32()
    ensures RowStep(IGMB_00, IGMB_32, 8778) && RowStep(IGMB_01, IGMB_33, 8778)
    ensures RowStep(IGMB_02, IGMB_34, 8778) && RowStep(IGMB_03, IGMB_35, 8778)
  {
  }

  lemma Rows36()
    ensures RowStep(IGMB_04, IGMB_36, 8778) && RowStep(IGMB_05, IGMB_37, 8778)
    ensures RowStep(IGMB_06, IGMB_38, 8778) && RowStep(IGMB_07, IGMB_39, 8778)
  {
  }

  lemma Rows40()
    ensures RowStep(IGMB_08, IGMB_40, 8778) && RowStep(IGMB_09, IGMB_41, 8778)
    ensures RowStep(IGMB_10, IGMB_42, 8778) && RowStep(IGMB_11, IGMB_43, 8778)
  {
  }

  lemma Rows44()
    ensures RowStep(IGMB_12, IGMB_44, 8778) && RowStep(IGMB_13, IGMB_45, 8778)
    ensures RowStep(IGMB_14, IGMB_46, 8778) && RowStep(IGMB_15, IGMB_47, 8778)
  {
  }

  lemma Rows48()
    ensures RowStep(IGMB_16, IGMB_48, 8778) && RowStep(IGMB_17, IGMB_49, 8778)
    ensures RowStep(IGMB_18, IGMB_50, 8778) && RowStep(IGMB_19, IGMB_51, 8778)
  {
  }

  lemma Rows52()
    ensures RowStep(IGMB_20, IGMB_52, 8778) && RowStep(IGMB_21, IGMB_53, 8778)
    ensures RowStep(IGMB_22, IGMB_54, 8778) && RowStep(IGMB_23, IGMB_55, 8778)
  {
  }

  lemma Rows56()
    ensures RowStep(IGMB_24, IGMB_56, 8778) && RowStep(IGMB_25, IGMB_57, 8778)
    ensures RowStep(IGMB_26, IGMB_58, 8778) && RowStep(IGMB_27, IGMB_59, 8778)
  {
  }

  lemma Rows60()
    ensures RowStep(IGMB_28, IGMB_60, 8778) && RowStep(IGMB_29, IGMB_61, 8778)
    ensures RowStep(IGMB_30, IGMB_62, 8778) && RowStep(IGMB_31, IGMB_63, 8778)
  {
  }

  lemma Grows()
    ensures TableGrows(IGMB, 8778)
  {
    hide RowGrows, RowStep, Factor;
    Factors();
    FirstRow();
    Rows1();
    Rows4();
    Rows8();
    Rows12();
    Rows16();
    Rows20();
    Rows24();
    Rows28();
    Rows32();
    Rows36();
    Rows40();
    Rows44();
    Rows48();
    Rows52();
    Rows56();
    Rows60();
  }

  /** The shipped table is the one built from 1/7. */
  lemma Shipped(k: nat)
    requires k < 1024
    ensures IGMB.At(k) == PqIgmb(k)
  {
    hide *;
    Grows();
    EntriesFollow(IGMB, 8778, k);
    PqIgmbIsEntry(k);
  }

  lemma PqIgmbIsEntry(k: nat)
    ensures PqIgmb(k) == Entry(8778, k)
  {
    hide Rev;
  }
}
